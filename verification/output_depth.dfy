/**
 * How deeply the value `safeLogValue` builds can nest. Primitives and values
 * passed through unwalked count as leaves; every array and record adds one
 * level. A Map costs three levels per unit of depth (record, entries array,
 * [key, value] pair), so a walk with budget d nests at most 3d + 1 deep (the
 * extra level is an Error's plain record).
 */
module OutputDepth {
  import opened JsValues
  import opened Serializer

  /** `x` nests at most `h` levels of arrays and records. */
  predicate HeightLe(x: Out, h: int)
    decreases x
  {
    match x
    case OPrim(_) => h >= 0
    case ORaw(_) => h >= 0
    case OArray(items) => h >= 1 && forall i :: 0 <= i < |items| ==> HeightLe(items[i], h - 1)
    case ORecord(fields) => h >= 1 && forall i :: 0 <= i < |fields| ==> HeightLe(fields[i].1, h - 1)
  }

  /** Every value of the record nests at most `h` levels. */
  predicate FieldsLe(kvs: seq<(string, Out)>, h: int) {
    forall i :: 0 <= i < |kvs| ==> HeightLe(kvs[i].1, h)
  }

  /** The bound the walk keeps with depth budget `d`. */
  function Bound(d: int): nat {
    3 * Budget(d) + 1
  }

  /** A looser bound holds whenever a tighter one does. */
  lemma {:induction false} HeightMono(x: Out, h: int, h': int)
    requires HeightLe(x, h) && h <= h'
    ensures HeightLe(x, h')
    decreases x
  {
    match x
    case OArray(items) =>
      forall i | 0 <= i < |items| ensures HeightLe(items[i], h' - 1) {
        HeightMono(items[i], h - 1, h' - 1);
      }
    case ORecord(fields) =>
      forall i | 0 <= i < |fields| ensures HeightLe(fields[i].1, h' - 1) {
        HeightMono(fields[i].1, h - 1, h' - 1);
      }
    case _ =>
  }

  /** Assignment stores only the old values and the new one. */
  lemma {:induction false} PutLe(kvs: seq<(string, Out)>, k: string, v: Out, h: int)
    requires FieldsLe(kvs, h) && HeightLe(v, h)
    ensures FieldsLe(Put(kvs, k, v), h)
    decreases |kvs|
  {
    if |kvs| > 0 && kvs[0].0 != k {
      PutLe(kvs[1..], k, v, h);
      var t := Put(kvs[1..], k, v);
      assert Put(kvs, k, v) == [kvs[0]] + t;
      forall i | 0 <= i < |[kvs[0]] + t| ensures HeightLe(([kvs[0]] + t)[i].1, h) {
        if i > 0 {
          assert ([kvs[0]] + t)[i] == t[i - 1];
        }
      }
    } else if |kvs| > 0 {
      forall i | 0 <= i < |kvs| ensures HeightLe(([(k, v)] + kvs[1..])[i].1, h) {
        if i > 0 {
          assert ([(k, v)] + kvs[1..])[i] == kvs[i];
        }
      }
    }
  }

  /** A run of assignments stores only values that were already within the bound. */
  lemma {:induction false} PutAllLe(acc: seq<(string, Out)>, kvs: seq<(string, Out)>, h: int)
    requires FieldsLe(acc, h) && FieldsLe(kvs, h)
    ensures FieldsLe(PutAll(acc, kvs), h)
    decreases |kvs|
  {
    if |kvs| > 0 {
      PutLe(acc, kvs[0].0, kvs[0].1, h);
      assert FieldsLe(kvs[1..], h) by {
        forall i | 0 <= i < |kvs| - 1 ensures HeightLe(kvs[1..][i].1, h) {
          assert kvs[1..][i] == kvs[i + 1];
        }
      }
      PutAllLe(Put(acc, kvs[0].0, kvs[0].1), kvs[1..], h);
    }
  }

  /** The plain record of an Error is one level deep: its fields are strings or values copied unwalked. */
  lemma PlainErrorHeight(e: ErrorInfo)
    ensures HeightLe(ORecord(ToPlainError(e)), 1)
  {
    var base := ErrorBase(e);
    var raw := RawFields(e.own);
    assert FieldsLe(base, 0) by {
      forall i | 0 <= i < |base| ensures HeightLe(base[i].1, 0) {
      }
    }
    assert FieldsLe(raw, 0) by {
      forall i | 0 <= i < |raw| ensures HeightLe(raw[i].1, 0) {
        assert raw[i].1 == Raw(e.own[i].1);
      }
    }
    PutAllLe(base, raw, 0);
    assert ToPlainError(e) == PutAll(base, raw);
  }

  /** A walk with depth budget `d` nests at most 3d + 1 levels. */
  lemma {:induction false} WalkHeight(heap: Heap, o: Options, v: Value, d: int, seen: set<int>)
    ensures HeightLe(Walk(heap, o, v, d, seen).0, Bound(d))
    decreases Budget(d), 0, 0
  {
    match v
    case ErrorValue(e) =>
      PlainErrorHeight(e);
      HeightMono(ORecord(ToPlainError(e)), 1, Bound(d));
    case Ref(id) =>
      if id in heap && d > 0 && !heap[id].HostNode? && id !in seen {
        WalkObjectHeight(heap, o, heap[id], d - 1, seen + {id});
        assert Bound(d - 1) + 3 == Bound(d);
      }
    case _ =>
  }

  /** Every item nests at most `h` levels. */
  predicate ItemsLe(xs: seq<Out>, h: int) {
    forall i :: 0 <= i < |xs| ==> HeightLe(xs[i], h)
  }

  /** An array adds one level to its items. */
  lemma ArrayLe(xs: seq<Out>, more: seq<Out>, h: int)
    requires ItemsLe(xs, h) && ItemsLe(more, h) && h >= 0
    ensures HeightLe(OArray(xs + more), h + 1)
  {
    forall i | 0 <= i < |xs + more| ensures HeightLe((xs + more)[i], h) {
      if i >= |xs| {
        assert (xs + more)[i] == more[i - |xs|];
      }
    }
  }

  /** A tagged record {type, contents, more?} adds one level to its values. */
  lemma TaggedLe(tag: string, key: string, x: Out, more: seq<(string, Out)>, h: int)
    requires HeightLe(x, h) && FieldsLe(more, h) && h >= 0
    ensures HeightLe(ORecord([("type", Str(tag)), (key, x)] + more), h + 1)
  {
    var fs := [("type", Str(tag)), (key, x)] + more;
    forall i | 0 <= i < |fs| ensures HeightLe(fs[i].1, h) {
      if i >= 2 {
        assert fs[i] == more[i - 2];
      }
    }
  }

  /** An array, Map, Set or object whose children are walked with budget `d` nests at most 3d + 4 levels. */
  lemma {:induction false} WalkObjectHeight(heap: Heap, o: Options, node: Node, d: int, seen: set<int>)
    requires !node.HostNode? && d >= 0
    ensures HeightLe(WalkObject(heap, o, node, d, seen).0, Bound(d) + 3)
    decreases Budget(d), 3, 0
  {
    match node
    case ArrayNode(_) => ArrayHeight(heap, o, node, d, seen);
    case MapNode(_, _) => MapHeight(heap, o, node, d, seen);
    case SetNode(_, _) => SetHeight(heap, o, node, d, seen);
    case ObjectNode(_, _) => PlainObjectHeight(heap, o, node, d, seen);
  }

  lemma {:induction false} ArrayHeight(heap: Heap, o: Options, node: Node, d: int, seen: set<int>)
    requires node.ArrayNode? && d >= 0
    ensures HeightLe(WalkObject(heap, o, node, d, seen).0, Bound(d) + 3)
    decreases Budget(d), 2, 0
  {
    var h := Bound(d);
    var items := node.items;
    var xs := items[..KeepCount(|items|, o.maxArrayLength)];
    WalkListHeight(heap, o, xs, d, seen);
    var w := WalkList(heap, o, xs, d, seen).0;
    var more := if |items| > o.maxArrayLength then [Overflow(|items|, o.maxArrayLength, ItemsSuffix)] else [];
    assert WalkObject(heap, o, node, d, seen).0 == OArray(w + more);
    ArrayLe(w, more, h);
    HeightMono(OArray(w + more), h + 1, h + 3);
  }

  lemma {:induction false} MapHeight(heap: Heap, o: Options, node: Node, d: int, seen: set<int>)
    requires node.MapNode? && d >= 0
    ensures HeightLe(WalkObject(heap, o, node, d, seen).0, Bound(d) + 3)
    decreases Budget(d), 2, 0
  {
    var h := Bound(d);
    var entries := node.entries;
    var es := entries[..KeepCount(|entries|, o.maxKeys)];
    WalkEntriesHeight(heap, o, es, d, seen);
    var w := WalkEntries(heap, o, es, d, seen).0;
    var more := if |entries| > o.maxKeys then [("more", Overflow(|entries|, o.maxKeys, EntriesSuffix))] else [];
    assert WalkObject(heap, o, node, d, seen).0 == ORecord([("type", Str("Map")), ("entries", OArray(w))] + more);
    ArrayLe(w, [], h + 1);
    assert w + [] == w;
    TaggedLe("Map", "entries", OArray(w), more, h + 2);
  }

  lemma {:induction false} SetHeight(heap: Heap, o: Options, node: Node, d: int, seen: set<int>)
    requires node.SetNode? && d >= 0
    ensures HeightLe(WalkObject(heap, o, node, d, seen).0, Bound(d) + 3)
    decreases Budget(d), 2, 0
  {
    var members := node.members;
    var xs := members[..KeepCount(|members|, o.maxArrayLength)];
    WalkListHeight(heap, o, xs, d, seen);
    var w := WalkList(heap, o, xs, d, seen).0;
    var more := if |members| > o.maxArrayLength then [("more", Overflow(|members|, o.maxArrayLength, ItemsSuffix))] else [];
    assert WalkObject(heap, o, node, d, seen).0 == ORecord([("type", Str("Set")), ("values", OArray(w))] + more);
    SetRecordLe(w, more, Bound(d));
  }

  /** The Set record {type, values, more?} over items within `h` nests at most h + 3 levels. */
  lemma SetRecordLe(w: seq<Out>, more: seq<(string, Out)>, h: int)
    requires ItemsLe(w, h) && FieldsLe(more, h) && h >= 0
    ensures HeightLe(ORecord([("type", Str("Set")), ("values", OArray(w))] + more), h + 3)
  {
    var r := ORecord([("type", Str("Set")), ("values", OArray(w))] + more);
    ArrayLe(w, [], h);
    assert w + [] == w;
    forall i | 0 <= i < |more| ensures HeightLe(more[i].1, h + 1) {
      HeightMono(more[i].1, h, h + 1);
    }
    TaggedLe("Set", "values", OArray(w), more, h + 1);
    HeightMono(r, h + 2, h + 3);
  }

  lemma {:induction false} PlainObjectHeight(heap: Heap, o: Options, node: Node, d: int, seen: set<int>)
    requires node.ObjectNode? && d >= 0
    ensures HeightLe(WalkObject(heap, o, node, d, seen).0, Bound(d) + 3)
    decreases Budget(d), 2, 0
  {
    var fs := node.fields[..KeepCount(|node.fields|, o.maxKeys)];
    WalkFieldsHeight(heap, o, fs, d, seen);
    ObjectStepLe(heap, o, node, d, seen, Bound(d));
  }

  /** A plain object whose walked fields stay within `h` renders within h + 3. */
  lemma ObjectStepLe(heap: Heap, o: Options, node: Node, d: int, seen: set<int>, h: int)
    requires node.ObjectNode? && d >= 0 && h >= 0
    requires FieldsLe(WalkFields(heap, o, node.fields[..KeepCount(|node.fields|, o.maxKeys)], d, seen).0, h)
    ensures HeightLe(WalkObject(heap, o, node, d, seen).0, h + 3)
  {
    var fields := node.fields;
    var w := WalkFields(heap, o, fields[..KeepCount(|fields|, o.maxKeys)], d, seen).0;
    var over := |fields| > o.maxKeys;
    var m := if over then Overflow(|fields|, o.maxKeys, KeysSuffix) else Str("");
    ObjectFieldsLe(w, over, m, h);
    var r := WalkObject(heap, o, node, d, seen).0;
    ObjectUnfold(heap, o, node, d, seen);
    RecordLe(r, h);
    HeightMono(r, h + 1, h + 3);
  }

  /** One step of WalkObject on a plain object: the walked fields assigned to `{}`, then `__moreKeys` on overflow. */
  lemma ObjectUnfold(heap: Heap, o: Options, node: Node, d: int, seen: set<int>)
    requires node.ObjectNode? && d >= 0
    ensures var fields := node.fields;
            var w := WalkFields(heap, o, fields[..KeepCount(|fields|, o.maxKeys)], d, seen).0;
            var over := |fields| > o.maxKeys;
            var m := if over then Overflow(|fields|, o.maxKeys, KeysSuffix) else Str("");
            var out := PutAll([], w);
            var r := WalkObject(heap, o, node, d, seen).0;
            r.ORecord? && r.fields == if over then Put(out, MoreKeysField, m) else out
  {
  }

  /** A record adds one level to its values. */
  lemma RecordLe(r: Out, h: int)
    requires r.ORecord? && FieldsLe(r.fields, h) && h >= 0
    ensures HeightLe(r, h + 1)
  {
  }

  /** Assigning walked fields to `{}`, then `__moreKeys` when `over`, stores only values within the bound. */
  lemma ObjectFieldsLe(w: seq<(string, Out)>, over: bool, m: Out, h: int)
    requires FieldsLe(w, h) && HeightLe(m, h) && h >= 0
    ensures var out := PutAll([], w);
            FieldsLe(if over then Put(out, MoreKeysField, m) else out, h)
  {
    var out := PutAll([], w);
    PutAllLe([], w, h);
    if over {
      PutLe(out, MoreKeysField, m, h);
    }
  }

  /** Each walked list item keeps the walk's bound. */
  lemma {:induction false} WalkListHeight(heap: Heap, o: Options, xs: seq<Value>, d: int, seen: set<int>)
    ensures forall i :: 0 <= i < |xs| ==> HeightLe(WalkList(heap, o, xs, d, seen).0[i], Bound(d))
    decreases Budget(d), 1, |xs|
  {
    if |xs| > 0 {
      var hd := Walk(heap, o, xs[0], d, seen);
      WalkHeight(heap, o, xs[0], d, seen);
      WalkListHeight(heap, o, xs[1..], d, hd.1);
    }
  }

  /** Each walked Map entry, a [key, value] pair, nests one level more than the walk's bound. */
  lemma {:induction false} WalkEntriesHeight(heap: Heap, o: Options, es: seq<(Value, Value)>, d: int, seen: set<int>)
    ensures forall i :: 0 <= i < |es| ==> HeightLe(WalkEntries(heap, o, es, d, seen).0[i], Bound(d) + 1)
    decreases Budget(d), 1, |es|
  {
    if |es| > 0 {
      var k := Walk(heap, o, es[0].0, d, seen);
      var v := Walk(heap, o, es[0].1, d, k.1);
      WalkHeight(heap, o, es[0].0, d, seen);
      WalkHeight(heap, o, es[0].1, d, k.1);
      assert HeightLe(OArray([k.0, v.0]), Bound(d) + 1);
      WalkEntriesHeight(heap, o, es[1..], d, v.1);
    }
  }

  /** Each walked object field keeps the walk's bound. */
  lemma {:induction false} WalkFieldsHeight(heap: Heap, o: Options, fs: seq<(string, Value)>, d: int, seen: set<int>)
    ensures FieldsLe(WalkFields(heap, o, fs, d, seen).0, Bound(d))
    decreases Budget(d), 1, |fs|
  {
    if |fs| > 0 {
      var hd := Walk(heap, o, fs[0].1, d, seen);
      WalkHeight(heap, o, fs[0].1, d, seen);
      WalkFieldsHeight(heap, o, fs[1..], d, hd.1);
    }
  }

  /** `safeLogValue` with depth option D nests at most 3·max(D, 0) + 1 levels of arrays and records. */
  lemma OutputDepthIsBounded(heap: Heap, v: Value, u: Overrides)
    ensures HeightLe(SafeLogValue(heap, v, u), 3 * Budget(Resolve(u).depth) + 1)
  {
    WalkHeight(heap, Resolve(u), v, Resolve(u).depth, {});
  }
}
