/**
 * The values the log serializer reads and the values it produces.
 *
 * Input values are JavaScript values. Composite objects live in a heap
 * addressed by integer ids, so that sharing and cycles can be expressed;
 * Date, RegExp, function and Error values carry the text the host would
 * produce for them (toISOString, String, Function.name, the error's fields).
 *
 * Output values (`Out`) are what `walk` builds: primitives, arrays, ordered
 * records, and `ORaw`, a non-primitive input value passed through unwalked.
 */
module JsValues {
  import opened Wrappers

  datatype Primitive =
    | PString(s: string)
    | PNumber(n: int)
    | PBoolean(b: bool)
    | PNull
    | PUndefined
    | PBigInt(i: int)
    | PSymbol(description: string)

  /** An Error instance: its name, message, stack and own enumerable fields, in key order. */
  datatype ErrorInfo = ErrorInfo(name: string, message: string, stack: Option<string>, own: seq<(string, Value)>)

  datatype Value =
    | Prim(p: Primitive)
    | DateValue(iso: string)
    | RegExpValue(text: string)
    | ErrorValue(err: ErrorInfo)
    | FunctionValue(name: string)  // "" for an anonymous function
    | Ref(id: int)                 // a composite object in the heap

  /**
   * Heap objects. `ctor` is `constructor.name` ("" when missing or empty).
   * A HostNode is a host value that is neither primitive nor `typeof 'object'`
   * (the serializer's fallback): `text` is String(v), None when that conversion
   * throws, and `tag` is Object.prototype.toString's result.
   */
  datatype Node =
    | ArrayNode(items: seq<Value>)
    | MapNode(ctor: string, entries: seq<(Value, Value)>)
    | SetNode(ctor: string, members: seq<Value>)
    | ObjectNode(ctor: string, fields: seq<(string, Value)>)
    | HostNode(text: Option<string>, tag: string)

  type Heap = map<int, Node>

  datatype Out =
    | OPrim(p: Primitive)
    | OArray(items: seq<Out>)
    | ORecord(fields: seq<(string, Out)>)
    | ORaw(v: Value)

  const Undefined: Value := Prim(PUndefined)

  function Str(s: string): Out {
    OPrim(PString(s))
  }

  /** A value copied as it is, without walking it. */
  function Raw(v: Value): (r: Out)
    ensures r.OPrim? <==> v.Prim?
  {
    if v.Prim? then OPrim(v.p) else ORaw(v)
  }

  // ---------------------------------------------------------------------
  // Ordered records: a JavaScript object's own string keys in insertion order.

  function Keys<V>(kvs: seq<(string, V)>): (ks: seq<string>)
    ensures |ks| == |kvs|
    ensures forall i :: 0 <= i < |kvs| ==> ks[i] == kvs[i].0
  {
    seq(|kvs|, i requires 0 <= i < |kvs| => kvs[i].0)
  }

  /** The keys of a non-empty record: its first key, then the keys of the rest. */
  lemma KeysFront<V>(kvs: seq<(string, V)>)
    requires |kvs| > 0
    ensures Keys(kvs) == [kvs[0].0] + Keys(kvs[1..])
  {
  }

  /** The keys of two records laid end to end. */
  lemma KeysAppend<V>(a: seq<(string, V)>, b: seq<(string, V)>)
    ensures Keys(a + b) == Keys(a) + Keys(b)
  {
  }

  /** The keys of a record with one entry put in front. */
  lemma KeysCons<V>(k: string, v: V, rest: seq<(string, V)>)
    ensures Keys([(k, v)] + rest) == [k] + Keys(rest)
  {
    assert ([(k, v)] + rest)[1..] == rest;
    KeysFront([(k, v)] + rest);
  }

  predicate DistinctKeys<V>(kvs: seq<(string, V)>) {
    forall i, j :: 0 <= i < j < |kvs| ==> kvs[i].0 != kvs[j].0
  }

  /** Property read `obj[k]`: the value stored under `k`, if any. */
  function Lookup<V>(kvs: seq<(string, V)>, k: string): Option<V> {
    if |kvs| == 0 then None
    else if kvs[0].0 == k then Some(kvs[0].1)
    else Lookup(kvs[1..], k)
  }

  /** Property assignment `obj[k] = v`: an existing key keeps its place, a new key goes last. */
  function Put<V>(kvs: seq<(string, V)>, k: string, v: V): (r: seq<(string, V)>)
    ensures forall k' :: Lookup(r, k') == if k' == k then Some(v) else Lookup(kvs, k')
    ensures |r| == if Lookup(kvs, k).Some? then |kvs| else |kvs| + 1
    ensures forall i :: 0 <= i < |kvs| ==> r[i].0 == kvs[i].0
    ensures Lookup(kvs, k).None? ==> r == kvs + [(k, v)]
  {
    if |kvs| == 0 then [(k, v)]
    else if kvs[0].0 == k then [(k, v)] + kvs[1..]
    else [kvs[0]] + Put(kvs[1..], k, v)
  }

  /** A key is present exactly when some pair carries it. */
  lemma {:induction false} LookupFindsKey<V>(kvs: seq<(string, V)>, k: string)
    ensures Lookup(kvs, k).Some? <==> exists i :: 0 <= i < |kvs| && kvs[i].0 == k
  {
    if |kvs| > 0 {
      LookupFindsKey(kvs[1..], k);
      if kvs[0].0 != k && Lookup(kvs, k).None? {
        assert forall i :: 1 <= i < |kvs| ==> kvs[i] == kvs[1..][i - 1];
      }
    }
  }

  /** Assignment never introduces a repeated key. */
  lemma PutKeepsDistinct<V>(kvs: seq<(string, V)>, k: string, v: V)
    requires DistinctKeys(kvs)
    ensures DistinctKeys(Put(kvs, k, v))
  {
    var r := Put(kvs, k, v);
    if Lookup(kvs, k).Some? {
      forall i, j | 0 <= i < j < |r| ensures r[i].0 != r[j].0 {
        assert r[i].0 == kvs[i].0 && r[j].0 == kvs[j].0;
      }
    } else {
      LookupFindsKey(kvs, k);
      forall i, j | 0 <= i < j < |r| ensures r[i].0 != r[j].0 {
        if j == |kvs| {
          assert r[j].0 == k && r[i] == kvs[i];
        } else {
          assert r[i] == kvs[i] && r[j] == kvs[j];
        }
      }
    }
  }

  /** Successive assignments, left to right. */
  function PutAll<V>(acc: seq<(string, V)>, kvs: seq<(string, V)>): seq<(string, V)>
    decreases |kvs|
  {
    if |kvs| == 0 then acc else PutAll(Put(acc, kvs[0].0, kvs[0].1), kvs[1..])
  }

  /** The value of the LAST pair with key `k`: the one a sequence of assignments leaves behind. */
  function LastValue<V>(kvs: seq<(string, V)>, k: string): Option<V> {
    if |kvs| == 0 then None
    else
      match LastValue(kvs[1..], k)
      case Some(v) => Some(v)
      case None => if kvs[0].0 == k then Some(kvs[0].1) else None
  }

  /** After a run of assignments, each key holds its last assigned value, else its old one. */
  lemma {:induction false} PutAllLookup<V>(acc: seq<(string, V)>, kvs: seq<(string, V)>, k: string)
    ensures Lookup(PutAll(acc, kvs), k) == LastValue(kvs, k).OrElse(Lookup(acc, k))
    decreases |kvs|
  {
    if |kvs| > 0 {
      PutAllLookup(Put(acc, kvs[0].0, kvs[0].1), kvs[1..], k);
    }
  }

  /** A run of assignments keeps distinct keys, and keeps the keys already present first and in order. */
  lemma {:induction false} PutAllKeys<V>(acc: seq<(string, V)>, kvs: seq<(string, V)>)
    ensures DistinctKeys(acc) ==> DistinctKeys(PutAll(acc, kvs))
    ensures |acc| <= |PutAll(acc, kvs)|
    ensures forall i :: 0 <= i < |acc| ==> PutAll(acc, kvs)[i].0 == acc[i].0
    decreases |kvs|
  {
    if |kvs| > 0 {
      var acc' := Put(acc, kvs[0].0, kvs[0].1);
      if DistinctKeys(acc) {
        PutKeepsDistinct(acc, kvs[0].0, kvs[0].1);
      }
      PutAllKeys(acc', kvs[1..]);
    }
  }

  /** Assigning keys that are all new appends them in order. */
  lemma {:induction false} PutAllFresh<V>(acc: seq<(string, V)>, kvs: seq<(string, V)>)
    requires DistinctKeys(acc + kvs)
    ensures PutAll(acc, kvs) == acc + kvs
    decreases |kvs|
  {
    if |kvs| > 0 {
      var k := kvs[0].0;
      forall i | 0 <= i < |acc|
        ensures acc[i].0 != kvs[0].0
      {
        assert (acc + kvs)[i] == acc[i] && (acc + kvs)[|acc|] == kvs[0];
      }
      LookupFindsKey(acc, kvs[0].0);
      var acc' := acc + [kvs[0]];
      assert acc' + kvs[1..] == acc + kvs;
      PutAllFresh(acc', kvs[1..]);
    }
  }

  /**
   * The keys `ys` adds, in order, to a record whose keys are `ks`: each key
   * not yet present, once, at its first occurrence.
   */
  function NewKeys(ks: seq<string>, ys: seq<string>): seq<string>
    decreases |ys|
  {
    if |ys| == 0 then []
    else if ys[0] in ks then NewKeys(ks, ys[1..])
    else [ys[0]] + NewKeys(ks + [ys[0]], ys[1..])
  }

  /** Assignment leaves the key list alone for a present key and appends a new one. */
  lemma PutKeys<V>(kvs: seq<(string, V)>, k: string, v: V)
    ensures Keys(Put(kvs, k, v)) == if k in Keys(kvs) then Keys(kvs) else Keys(kvs) + [k]
  {
    LookupFindsKey(kvs, k);
    var r := Put(kvs, k, v);
    if k in Keys(kvs) {
      var i :| 0 <= i < |kvs| && Keys(kvs)[i] == k;
      assert kvs[i].0 == k;
      assert Keys(r) == Keys(kvs);
    } else {
      assert Lookup(kvs, k).None?;
      KeysAppend(kvs, [(k, v)]);
    }
  }

  /** The key order after a run of assignments: the old keys, then the new ones in first-assignment order. */
  lemma {:induction false} PutAllKeyOrder<V>(acc: seq<(string, V)>, kvs: seq<(string, V)>)
    ensures Keys(PutAll(acc, kvs)) == Keys(acc) + NewKeys(Keys(acc), Keys(kvs))
    decreases |kvs|
  {
    if |kvs| == 0 {
      assert Keys(acc) + [] == Keys(acc);
    } else {
      var k := kvs[0].0;
      var acc' := Put(acc, k, kvs[0].1);
      PutAllKeyOrder(acc', kvs[1..]);
      PutKeys(acc, k, kvs[0].1);
      KeysFront(kvs);
      assert Keys(kvs)[0] == k && Keys(kvs)[1..] == Keys(kvs[1..]);
      if k !in Keys(acc) {
        assert Keys(acc) + [k] + NewKeys(Keys(acc) + [k], Keys(kvs[1..]))
            == Keys(acc) + ([k] + NewKeys(Keys(acc) + [k], Keys(kvs[1..])));
      }
    }
  }
}
