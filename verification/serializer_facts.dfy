/**
 * Properties of `walk` and `safeLogValue`: what each kind of value becomes,
 * how the visited set turns a second visit into "[Circular]", and how the
 * width limits cut arrays, Maps, Sets and plain objects.
 */
module SerializerFacts {
  import opened Wrappers
  import opened JsValues
  import opened Serializer
  import Decimal

  // ---------------------------------------------------------------------
  // Strings and leaves

  /** Every string comes back unchanged, whatever maxStringLength is: the primitive test runs first. */
  lemma StringsAreNeverTruncated(heap: Heap, s: string, u: Overrides)
    ensures SafeLogValue(heap, Prim(PString(s)), u) == Str(s)
  {
  }

  /**
   * With maxStringLength 50 a 100-character string would be cut to 26
   * characters and "…(truncated 74 chars)", yet `safeLogValue` returns it whole.
   */
  lemma TruncationIsUnreachable(heap: Heap, s: string)
    requires |s| == 100
    ensures TruncateString(s, 50) == s[..26] + TruncatedPrefix + "74" + TruncatedSuffix
    ensures SafeLogValue(heap, Prim(PString(s)), Overrides(None, None, None, Some(50))) == Str(s)
  {
    assert KeptLength(50) == 26;
    assert Decimal.FromNat(74) == "74" by {
      assert Decimal.FromNat(74) == Decimal.FromNat(7) + ['4'];
    }
    StringsAreNeverTruncated(heap, s, Overrides(None, None, None, Some(50)));
  }

  /**
   * Primitives, dates, regular expressions, functions and errors are rendered
   * before the depth and cycle checks: their rendering depends on neither the
   * remaining depth nor the visited set, and visits nothing.
   */
  lemma LeavesIgnoreDepthAndVisits(heap: Heap, o: Options, v: Value, d1: int, d2: int, seen1: set<int>, seen2: set<int>)
    requires !v.Ref?
    ensures Walk(heap, o, v, d1, seen1).0 == Walk(heap, o, v, d2, seen2).0
    ensures Walk(heap, o, v, d1, seen1).1 == seen1
  {
  }

  /**
   * What the leaves become: a Date its ISO text, a RegExp its source text, a
   * function "[Function name]" ("anonymous" when unnamed), and a host value
   * met with depth left `String(v)`, or its toString tag when that throws.
   */
  lemma LeafRendering(heap: Heap, o: Options, d: int, seen: set<int>, iso: string, text: string, name: string)
    ensures Walk(heap, o, DateValue(iso), d, seen) == (Str(iso), seen)
    ensures Walk(heap, o, RegExpValue(text), d, seen) == (Str(text), seen)
    ensures var f := Walk(heap, o, FunctionValue(name), d, seen).0.p.s;
            && Walk(heap, o, FunctionValue(name), d, seen).0.OPrim?
            && f[..10] == "[Function " && f[|f| - 1] == ']'
            && f[10..|f| - 1] == (if name == "" then "anonymous" else name)
  {
  }

  /** A host value (neither primitive nor an object) met with depth left: `String(v)`, else its tag. */
  lemma HostValueRendering(heap: Heap, o: Options, id: int, d: int, seen: set<int>)
    requires id in heap && heap[id].HostNode? && d > 0
    ensures Walk(heap, o, Ref(id), d, seen)
         == (Str(if heap[id].text.Some? then heap[id].text.value else heap[id].tag), seen)
  {
  }

  /** An Error becomes its plain record whatever the depth: `name`, `message`, `stack`, then its own fields raw. */
  lemma ErrorsBecomePlainRecords(heap: Heap, o: Options, e: ErrorInfo, d: int, seen: set<int>)
    ensures Walk(heap, o, ErrorValue(e), d, seen).0.ORecord?
    ensures forall k :: Lookup(Walk(heap, o, ErrorValue(e), d, seen).0.fields, k) == ErrorField(e, k)
  {
  }

  // ---------------------------------------------------------------------
  // Depth budget

  /**
   * With no depth left, an array becomes "[Array(n)]" and a Map, Set or plain
   * object "[Object C]"; nothing is visited.
   */
  lemma ExhaustedObjectsArePlaceholders(heap: Heap, o: Options, id: int, d: int, seen: set<int>)
    requires id in heap && d <= 0
    ensures Walk(heap, o, Ref(id), d, seen).1 == seen
    ensures heap[id].ArrayNode? ==>
      Walk(heap, o, Ref(id), d, seen).0 == Str("[Array(" + Decimal.FromNat(|heap[id].items|) + ")]")
      && Decimal.ParseMarker("[Array(", ")]", ArrayLabel(|heap[id].items|)) == Some(|heap[id].items|)
    ensures (heap[id].MapNode? || heap[id].SetNode? || heap[id].ObjectNode?) ==>
      Walk(heap, o, Ref(id), d, seen).0 == Str("[Object " + (if heap[id].ctor == "" then "Object" else heap[id].ctor) + "]")
    ensures heap[id].HostNode? ==> Walk(heap, o, Ref(id), d, seen).0 == ORaw(Ref(id))
  {
    if heap[id].ArrayNode? {
      Decimal.MarkerRoundTrip("[Array(", |heap[id].items|, ")]");
    }
  }

  // ---------------------------------------------------------------------
  // Visited set

  /** An object already visited in this call, met again with depth left, is "[Circular]". */
  lemma RevisitIsCircular(heap: Heap, o: Options, id: int, d: int, seen: set<int>)
    requires IsComposite(heap, id) && d > 0 && id in seen
    ensures Walk(heap, o, Ref(id), d, seen) == (Str(CircularMarker), seen)
  {
  }

  /** Walking a list is walking a prefix, then the rest from where the prefix left the visited set. */
  lemma {:induction false} WalkListSplit(heap: Heap, o: Options, xs: seq<Value>, d: int, seen: set<int>, i: nat)
    requires i <= |xs|
    ensures var a := WalkList(heap, o, xs[..i], d, seen);
            var b := WalkList(heap, o, xs[i..], d, a.1);
            WalkList(heap, o, xs, d, seen) == (a.0 + b.0, b.1)
    decreases i
  {
    if i == 0 {
      assert xs[..0] == [] && xs[0..] == xs;
      var b := WalkList(heap, o, xs, d, seen);
      assert [] + b.0 == b.0;
    } else {
      var h := Walk(heap, o, xs[0], d, seen);
      WalkListSplit(heap, o, xs[1..], d, h.1, i - 1);
      assert xs[..i][0] == xs[0];
      assert xs[..i][1..] == xs[1..][..i - 1];
      assert xs[1..][i - 1..] == xs[i..];
      var a' := WalkList(heap, o, xs[1..][..i - 1], d, h.1);
      var a := WalkList(heap, o, xs[..i], d, seen);
      assert a == ([h.0] + a'.0, a'.1);
      var b := WalkList(heap, o, xs[i..], d, a.1);
      assert [h.0] + (a'.0 + b.0) == ([h.0] + a'.0) + b.0;
    }
  }

  /** Element i of a walked list is item i walked with the visits its predecessors made. */
  lemma WalkListPointwise(heap: Heap, o: Options, xs: seq<Value>, d: int, seen: set<int>, i: nat)
    requires i < |xs|
    ensures WalkList(heap, o, xs, d, seen).0[i]
         == Walk(heap, o, xs[i], d, WalkList(heap, o, xs[..i], d, seen).1).0
  {
    WalkListSplit(heap, o, xs, d, seen, i);
  }

  /** Walking Map entries is walking a prefix of them, then the rest from where the prefix left the visited set. */
  lemma {:induction false} WalkEntriesSplit(heap: Heap, o: Options, es: seq<(Value, Value)>, d: int, seen: set<int>, i: nat)
    requires i <= |es|
    ensures var a := WalkEntries(heap, o, es[..i], d, seen);
            var b := WalkEntries(heap, o, es[i..], d, a.1);
            WalkEntries(heap, o, es, d, seen) == (a.0 + b.0, b.1)
    decreases i
  {
    if i == 0 {
      assert es[..0] == [] && es[0..] == es;
      var b := WalkEntries(heap, o, es, d, seen);
      assert [] + b.0 == b.0;
    } else {
      var k := Walk(heap, o, es[0].0, d, seen);
      var v := Walk(heap, o, es[0].1, d, k.1);
      WalkEntriesSplit(heap, o, es[1..], d, v.1, i - 1);
      assert es[..i][0] == es[0];
      assert es[..i][1..] == es[1..][..i - 1];
      assert es[1..][i - 1..] == es[i..];
      var a' := WalkEntries(heap, o, es[1..][..i - 1], d, v.1);
      var a := WalkEntries(heap, o, es[..i], d, seen);
      assert a == ([OArray([k.0, v.0])] + a'.0, a'.1);
      var b := WalkEntries(heap, o, es[i..], d, a.1);
      assert [OArray([k.0, v.0])] + (a'.0 + b.0) == ([OArray([k.0, v.0])] + a'.0) + b.0;
    }
  }

  /**
   * Entry i of a walked Map is [walked key, walked value]: the key is walked
   * with the visits of the entries before it, and the value with the visits
   * the key added as well.
   */
  lemma WalkEntriesPointwise(heap: Heap, o: Options, es: seq<(Value, Value)>, d: int, seen: set<int>, i: nat)
    requires i < |es|
    ensures var s := WalkEntries(heap, o, es[..i], d, seen).1;
            var k := Walk(heap, o, es[i].0, d, s);
            var v := Walk(heap, o, es[i].1, d, k.1);
            WalkEntries(heap, o, es, d, seen).0[i] == OArray([k.0, v.0])
  {
    WalkEntriesSplit(heap, o, es, d, seen, i);
    assert es[i..][0] == es[i];
  }

  /** Walking no fields yields nothing and visits nothing. */
  lemma WalkFieldsNone(heap: Heap, o: Options, d: int, seen: set<int>)
    ensures WalkFields(heap, o, [], d, seen) == ([], seen)
  {
  }

  /** One step of walking object fields: the first field, then the rest from the visits it made. */
  lemma WalkFieldsCons(heap: Heap, o: Options, fs: seq<(string, Value)>, d: int, seen: set<int>)
    requires |fs| > 0
    ensures var h := Walk(heap, o, fs[0].1, d, seen);
            var t := WalkFields(heap, o, fs[1..], d, h.1);
            WalkFields(heap, o, fs, d, seen) == ([(fs[0].0, h.0)] + t.0, t.1)
  {
  }

  /** Field i of a walked object keeps its key and holds its value walked with the visits of the fields before it. */
  lemma {:induction false} WalkFieldsPointwise(heap: Heap, o: Options, fs: seq<(string, Value)>, d: int, seen: set<int>, i: nat)
    requires i < |fs|
    ensures WalkFields(heap, o, fs, d, seen).0[i]
         == (fs[i].0, Walk(heap, o, fs[i].1, d, WalkFields(heap, o, fs[..i], d, seen).1).0)
    decreases i
  {
    WalkFieldsCons(heap, o, fs, d, seen);
    var h := Walk(heap, o, fs[0].1, d, seen);
    if i == 0 {
      assert fs[..0] == [];
      WalkFieldsNone(heap, o, d, seen);
    } else {
      WalkFieldsPointwise(heap, o, fs[1..], d, h.1, i - 1);
      var pre := fs[..i];
      assert pre[0] == fs[0] && pre[1..] == fs[1..][..i - 1];
      WalkFieldsCons(heap, o, pre, d, seen);
      assert fs[1..][i - 1] == fs[i];
    }
  }

  /**
   * Within one list, an object reached a second time renders as "[Circular]",
   * whether or not the graph has a cycle: the visited set is never pruned.
   */
  lemma SecondReferenceIsCircular(heap: Heap, o: Options, xs: seq<Value>, d: int, seen: set<int>, i: nat, j: nat, id: int)
    requires i < j < |xs| && xs[i] == Ref(id) && xs[j] == Ref(id)
    requires IsComposite(heap, id) && d > 0
    ensures WalkList(heap, o, xs, d, seen).0[j] == Str(CircularMarker)
  {
    WalkListPointwise(heap, o, xs, d, seen, j);
    var pre := xs[..j];
    WalkListSplit(heap, o, pre, d, seen, i);
    var a := WalkList(heap, o, pre[..i], d, seen);
    assert pre[..i] == xs[..i];
    assert pre[i..][0] == Ref(id);
    var w := Walk(heap, o, Ref(id), d, a.1);
    assert id in w.1;
    assert WalkList(heap, o, pre[i..], d, a.1).1 == WalkList(heap, o, pre[i..][1..], d, w.1).1;
    RevisitIsCircular(heap, o, id, d, WalkList(heap, o, xs[..j], d, seen).1);
  }

  /** `[obj, obj]` with depth 2 or more: the second element is "[Circular]" although nothing is cyclic. */
  lemma SharedReferenceInArray(heap: Heap, u: Overrides, root: int, id: int)
    requires root in heap && heap[root] == ArrayNode([Ref(id), Ref(id)])
    requires IsComposite(heap, id) && root != id
    requires Resolve(u).depth >= 2 && Resolve(u).maxArrayLength >= 2
    ensures SafeLogValue(heap, Ref(root), u).OArray?
    ensures |SafeLogValue(heap, Ref(root), u).items| == 2
    ensures SafeLogValue(heap, Ref(root), u).items[1] == Str(CircularMarker)
  {
    var o := Resolve(u);
    var items := [Ref(id), Ref(id)];
    assert items[..KeepCount(2, o.maxArrayLength)] == items;
    var w := WalkList(heap, o, items, o.depth - 1, {root});
    assert SafeLogValue(heap, Ref(root), u) == Walk(heap, o, Ref(root), o.depth, {}).0;
    assert {} + {root} == {root};
    assert Walk(heap, o, Ref(root), o.depth, {}) == WalkObject(heap, o, heap[root], o.depth - 1, {root});
    assert WalkObject(heap, o, heap[root], o.depth - 1, {root}).0 == OArray(w.0 + []);
    SecondReferenceIsCircular(heap, o, items, o.depth - 1, {root}, 0, 1, id);
  }

  /** An object whose field points back to itself: with depth 2 or more the field is "[Circular]". */
  lemma SelfReferenceIsCircular(heap: Heap, u: Overrides, id: int, ctor: string, key: string)
    requires id in heap && heap[id] == ObjectNode(ctor, [(key, Ref(id))])
    requires Resolve(u).depth >= 2 && Resolve(u).maxKeys >= 1
    ensures SafeLogValue(heap, Ref(id), u) == ORecord([(key, Str(CircularMarker))])
  {
    var o := Resolve(u);
    var fields := [(key, Ref(id))];
    assert fields[..KeepCount(1, o.maxKeys)] == fields;
    assert SafeLogValue(heap, Ref(id), u) == Walk(heap, o, Ref(id), o.depth, {}).0;
    assert {} + {id} == {id};
    ObjectShape(heap, o, id, o.depth, {});
    WalkFieldsCons(heap, o, fields, o.depth - 1, {id});
    assert fields[1..] == [];
    var inner := Walk(heap, o, Ref(id), o.depth - 1, {id});
    assert inner == (Str(CircularMarker), {id});
    WalkFieldsNone(heap, o, o.depth - 1, inner.1);
    var w := WalkFields(heap, o, fields, o.depth - 1, {id}).0;
    assert w == [(key, Str(CircularMarker))];
    FreshLayout(w);
  }

  /**
   * With depth exactly 1 the same field is not "[Circular]" but "[Object C]":
   * the depth test comes before the visited test.
   */
  lemma SelfReferenceAtDepthOne(heap: Heap, u: Overrides, id: int, ctor: string, key: string)
    requires id in heap && heap[id] == ObjectNode(ctor, [(key, Ref(id))])
    requires Resolve(u).depth == 1 && Resolve(u).maxKeys >= 1
    ensures SafeLogValue(heap, Ref(id), u) == ORecord([(key, Str(ObjectLabel(ctor)))])
  {
    var o := Resolve(u);
    var fields := [(key, Ref(id))];
    assert fields[..KeepCount(1, o.maxKeys)] == fields;
    assert SafeLogValue(heap, Ref(id), u) == Walk(heap, o, Ref(id), 1, {}).0;
    assert {} + {id} == {id};
    ObjectShape(heap, o, id, 1, {});
    WalkFieldsCons(heap, o, fields, 0, {id});
    assert fields[1..] == [];
    var inner := Walk(heap, o, Ref(id), 0, {id});
    assert inner.0 == Str(ObjectLabel(ctor));
    WalkFieldsNone(heap, o, 0, inner.1);
    var w := WalkFields(heap, o, fields, 0, {id}).0;
    assert w == [(key, Str(ObjectLabel(ctor)))];
    FreshLayout(w);
  }

  /** Each call starts from an empty visited set: the value passed in is never "[Circular]" itself. */
  lemma RootIsNeverCircular(heap: Heap, u: Overrides, id: int)
    requires IsComposite(heap, id) && Resolve(u).depth > 0
    ensures SafeLogValue(heap, Ref(id), u) != Str(CircularMarker)
    ensures SafeLogValue(heap, Ref(id), u).OArray? || SafeLogValue(heap, Ref(id), u).ORecord?
  {
    var o := Resolve(u);
    assert SafeLogValue(heap, Ref(id), u) == Walk(heap, o, Ref(id), o.depth, {}).0;
    assert {} + {id} == {id};
    assert Walk(heap, o, Ref(id), o.depth, {}) == WalkObject(heap, o, heap[id], o.depth - 1, {id});
  }

  // ---------------------------------------------------------------------
  // Width limits

  /**
   * An array keeps its first KeepCount(len, maxArrayLength) elements, in order,
   * each walked, and gets exactly one more element, the "…(+N items)" marker,
   * exactly when it is longer than maxArrayLength.
   */
  lemma ArrayRendering(heap: Heap, o: Options, id: int, d: int, seen: set<int>)
    requires id in heap && heap[id].ArrayNode? && d > 0 && id !in seen
    ensures var items := heap[id].items;
            var n := KeepCount(|items|, o.maxArrayLength);
            var r := Walk(heap, o, Ref(id), d, seen).0;
            && r.OArray?
            && |r.items| == n + (if |items| > o.maxArrayLength then 1 else 0)
            && r.items[..n] == WalkList(heap, o, items[..n], d - 1, seen + {id}).0
            && (|items| > o.maxArrayLength ==>
                 r.items[n] == Overflow(|items|, o.maxArrayLength, ItemsSuffix))
  {
  }

  /** With a non-negative limit the kept count is min(len, limit). */
  lemma KeepCountIsMin(len: nat, limit: int)
    requires limit >= 0
    ensures KeepCount(len, limit) == if len <= limit then len else limit
    ensures KeepCount(len, limit) < len <==> len > limit
  {
  }

  /**
   * A Set becomes {type: "Set", values, more?}: values holds its first
   * KeepCount(size, maxArrayLength) members walked, and `more` ("…(+N items)")
   * is present exactly when size > maxArrayLength.
   */
  lemma SetRendering(heap: Heap, o: Options, id: int, d: int, seen: set<int>)
    requires id in heap && heap[id].SetNode? && d > 0 && id !in seen
    ensures var members := heap[id].members;
            var n := KeepCount(|members|, o.maxArrayLength);
            var r := Walk(heap, o, Ref(id), d, seen).0;
            && r.ORecord?
            && Keys(r.fields) == ["type", "values"] + (if |members| > o.maxArrayLength then ["more"] else [])
            && Lookup(r.fields, "type") == Some(Str("Set"))
            && Lookup(r.fields, "values") == Some(OArray(WalkList(heap, o, members[..n], d - 1, seen + {id}).0))
            && |WalkList(heap, o, members[..n], d - 1, seen + {id}).0| == n
            && (Lookup(r.fields, "more").Some? <==> |members| > o.maxArrayLength)
            && (|members| > o.maxArrayLength ==>
                 Lookup(r.fields, "more") == Some(Overflow(|members|, o.maxArrayLength, ItemsSuffix)))
  {
    var members := heap[id].members;
    var n := KeepCount(|members|, o.maxArrayLength);
    var w := WalkList(heap, o, members[..n], d - 1, seen + {id});
    var more := if |members| > o.maxArrayLength then [("more", Overflow(|members|, o.maxArrayLength, ItemsSuffix))] else [];
    TaggedLookup("type", Str("Set"), "values", OArray(w.0), more);
  }

  /**
   * A Map becomes {type: "Map", entries, more?}: entries holds its first
   * KeepCount(size, maxKeys) entries as [key, value] pairs, and `more`
   * ("…(+N entries)") is present exactly when size > maxKeys.
   */
  lemma MapRendering(heap: Heap, o: Options, id: int, d: int, seen: set<int>)
    requires id in heap && heap[id].MapNode? && d > 0 && id !in seen
    ensures var entries := heap[id].entries;
            var n := KeepCount(|entries|, o.maxKeys);
            var w := WalkEntries(heap, o, entries[..n], d - 1, seen + {id}).0;
            var r := Walk(heap, o, Ref(id), d, seen).0;
            && r.ORecord?
            && Keys(r.fields) == ["type", "entries"] + (if |entries| > o.maxKeys then ["more"] else [])
            && Lookup(r.fields, "type") == Some(Str("Map"))
            && Lookup(r.fields, "entries") == Some(OArray(w))
            && |w| == n
            && (forall i :: 0 <= i < n ==> w[i].OArray? && |w[i].items| == 2)
            && (Lookup(r.fields, "more").Some? <==> |entries| > o.maxKeys)
            && (|entries| > o.maxKeys ==>
                 Lookup(r.fields, "more") == Some(Overflow(|entries|, o.maxKeys, EntriesSuffix)))
  {
    var entries := heap[id].entries;
    var n := KeepCount(|entries|, o.maxKeys);
    EntriesArePairs(heap, o, entries[..n], d - 1, seen + {id});
    var w := WalkEntries(heap, o, entries[..n], d - 1, seen + {id});
    var more := if |entries| > o.maxKeys then [("more", Overflow(|entries|, o.maxKeys, EntriesSuffix))] else [];
    TaggedLookup("type", Str("Map"), "entries", OArray(w.0), more);
  }

  /** Reading the fields of a tagged record {type, contents, more?}. */
  lemma TaggedLookup(k1: string, x1: Out, k2: string, x2: Out, more: seq<(string, Out)>)
    requires k1 != k2 && k1 != "more" && k2 != "more"
    requires more == [] || (|more| == 1 && more[0].0 == "more")
    ensures var r := [(k1, x1), (k2, x2)] + more;
            && Keys(r) == [k1, k2] + (if more == [] then [] else ["more"])
            && Lookup(r, k1) == Some(x1)
            && Lookup(r, k2) == Some(x2)
            && Lookup(r, "more") == if more == [] then None else Some(more[0].1)
  {
    var r := [(k1, x1), (k2, x2)] + more;
    assert Keys(r) == [k1, k2] + (if more == [] then [] else ["more"]);
    assert r[1..] == [(k2, x2)] + more;
    assert r[1..][1..] == more;
    assert Lookup(r, k1) == Some(x1);
    assert Lookup(r[1..], k2) == Some(x2);
    if more != [] {
      assert Lookup(more, "more") == Some(more[0].1);
    } else {
      assert Lookup(r[1..][1..], "more") == None;
    }
  }

  /** Each walked Map entry is a two-element [key, value] array. */
  lemma {:induction false} EntriesArePairs(heap: Heap, o: Options, es: seq<(Value, Value)>, d: int, seen: set<int>)
    ensures forall i :: 0 <= i < |es| ==>
      WalkEntries(heap, o, es, d, seen).0[i].OArray? && |WalkEntries(heap, o, es, d, seen).0[i].items| == 2
    decreases |es|
  {
    if |es| > 0 {
      var k := Walk(heap, o, es[0].0, d, seen);
      var v := Walk(heap, o, es[0].1, d, k.1);
      EntriesArePairs(heap, o, es[1..], d, v.1);
    }
  }

  /** Assigning fields with distinct keys one by one to `{}` gives those fields, in order. */
  lemma FreshLayout(w: seq<(string, Out)>)
    requires DistinctKeys(w)
    ensures PutAll([], w) == w
  {
    assert [] + w == w;
    PutAllFresh([], w);
  }

  /** Assigning `__moreKeys` to a record that lacks it appends it last. */
  lemma MoreKeysGoesLast(w: seq<(string, Out)>, m: Out)
    requires MoreKeysField !in Keys(w)
    ensures Put(w, MoreKeysField, m) == w + [(MoreKeysField, m)]
    ensures Lookup(Put(w, MoreKeysField, m), MoreKeysField) == Some(m)
    ensures Keys(Put(w, MoreKeysField, m)) == Keys(w) + [MoreKeysField]
    ensures Put(w, MoreKeysField, m)[..|w|] == w
  {
    LookupFindsKey(w, MoreKeysField);
    KeysAppend(w, [(MoreKeysField, m)]);
    assert (w + [(MoreKeysField, m)])[..|w|] == w;
  }

  /** Walked fields carry the keys of the fields they come from, so distinct keys stay distinct. */
  lemma WalkedFieldsDistinct(heap: Heap, o: Options, fs: seq<(string, Value)>, d: int, seen: set<int>)
    requires DistinctKeys(fs)
    ensures DistinctKeys(WalkFields(heap, o, fs, d, seen).0)
  {
    var w := WalkFields(heap, o, fs, d, seen).0;
    forall i, j | 0 <= i < j < |w| ensures w[i].0 != w[j].0 {
      assert Keys(w)[i] == Keys(fs)[i] && Keys(w)[j] == Keys(fs)[j];
    }
  }

  /**
   * A plain object with distinct keys keeps its first KeepCount(count, maxKeys)
   * keys in order, each holding its walked value, and gains `__moreKeys`
   * ("…(+N keys)") last exactly when keys were dropped.
   */
  lemma ObjectRendering(heap: Heap, o: Options, id: int, d: int, seen: set<int>)
    requires id in heap && heap[id].ObjectNode? && d > 0 && id !in seen
    requires DistinctKeys(heap[id].fields)
    requires |heap[id].fields| > o.maxKeys ==>
               MoreKeysField !in Keys(heap[id].fields[..KeepCount(|heap[id].fields|, o.maxKeys)])
    ensures var fields := heap[id].fields;
            var n := KeepCount(|fields|, o.maxKeys);
            var w := WalkFields(heap, o, fields[..n], d - 1, seen + {id}).0;
            var r := Walk(heap, o, Ref(id), d, seen).0;
            && r.ORecord?
            && Keys(r.fields) == Keys(fields[..n]) + (if |fields| > o.maxKeys then [MoreKeysField] else [])
            && |r.fields| >= n && r.fields[..n] == w
            && (|fields| > o.maxKeys ==>
                 Lookup(r.fields, MoreKeysField) == Some(Overflow(|fields|, o.maxKeys, KeysSuffix)))
  {
    var fields := heap[id].fields;
    var n := KeepCount(|fields|, o.maxKeys);
    var kept := fields[..n];
    DistinctPrefix(fields, n);
    WalkedFieldsDistinct(heap, o, kept, d - 1, seen + {id});
    var w := WalkFields(heap, o, kept, d - 1, seen + {id}).0;
    assert Keys(w) == Keys(kept);
    ObjectShape(heap, o, id, d, seen);
    if |fields| > o.maxKeys {
      RecordLayout(w, true, Overflow(|fields|, o.maxKeys, KeysSuffix));
    } else {
      RecordLayout(w, false, Str(""));
    }
  }

  /**
   * When a kept field is itself named `__moreKeys`, the overflow marker
   * overwrites it in place: no key is added and the marker wins.
   */
  lemma ObjectRenderingOverwrite(heap: Heap, o: Options, id: int, d: int, seen: set<int>)
    requires id in heap && heap[id].ObjectNode? && d > 0 && id !in seen
    requires DistinctKeys(heap[id].fields) && |heap[id].fields| > o.maxKeys
    requires MoreKeysField in Keys(heap[id].fields[..KeepCount(|heap[id].fields|, o.maxKeys)])
    ensures var fields := heap[id].fields;
            var n := KeepCount(|fields|, o.maxKeys);
            var r := Walk(heap, o, Ref(id), d, seen).0;
            && r.ORecord?
            && Keys(r.fields) == Keys(fields[..n])
            && Lookup(r.fields, MoreKeysField) == Some(Overflow(|fields|, o.maxKeys, KeysSuffix))
  {
    var fields := heap[id].fields;
    var n := KeepCount(|fields|, o.maxKeys);
    var kept := fields[..n];
    DistinctPrefix(fields, n);
    WalkedFieldsDistinct(heap, o, kept, d - 1, seen + {id});
    var w := WalkFields(heap, o, kept, d - 1, seen + {id}).0;
    assert Keys(w) == Keys(kept);
    ObjectShape(heap, o, id, d, seen);
    FreshLayout(w);
    PutKeys(w, MoreKeysField, Overflow(|fields|, o.maxKeys, KeysSuffix));
  }

  /** The record built from fresh distinct fields, with `__moreKeys` assigned last when `more` holds. */
  lemma RecordLayout(w: seq<(string, Out)>, more: bool, m: Out)
    requires DistinctKeys(w) && (more ==> MoreKeysField !in Keys(w))
    ensures var out := PutAll([], w);
            var rec := if more then Put(out, MoreKeysField, m) else out;
            && Keys(rec) == Keys(w) + (if more then [MoreKeysField] else [])
            && |rec| >= |w| && rec[..|w|] == w
            && (more ==> Lookup(rec, MoreKeysField) == Some(m))
  {
    FreshLayout(w);
    if more {
      MoreKeysGoesLast(w, m);
    } else {
      assert w[..|w|] == w;
      assert Keys(w) + [] == Keys(w);
    }
  }

  /** A prefix of a record with distinct keys has distinct keys. */
  lemma DistinctPrefix<V>(kvs: seq<(string, V)>, n: nat)
    requires DistinctKeys(kvs) && n <= |kvs|
    ensures DistinctKeys(kvs[..n])
  {
  }

  /** One unfolding of `walk` on a plain object not seen before. */
  lemma ObjectShape(heap: Heap, o: Options, id: int, d: int, seen: set<int>)
    requires id in heap && heap[id].ObjectNode? && d > 0 && id !in seen
    ensures var fields := heap[id].fields;
            var w := WalkFields(heap, o, fields[..KeepCount(|fields|, o.maxKeys)], d - 1, seen + {id}).0;
            var out := PutAll([], w);
            Walk(heap, o, Ref(id), d, seen).0
              == ORecord(if |fields| > o.maxKeys then Put(out, MoreKeysField, Overflow(|fields|, o.maxKeys, KeysSuffix)) else out)
  {
    assert Walk(heap, o, Ref(id), d, seen) == WalkObject(heap, o, heap[id], d - 1, seen + {id});
  }

  // ---------------------------------------------------------------------
  // safeJsonStringify

  /** A bigint passes through `walk` and defeats the encoder: the result is the failure envelope. */
  lemma BigIntYieldsFailureEnvelope(heap: Heap, i: int, u: Overrides, rawOk: Value -> bool, detail: string)
    ensures SafeJsonStringify(heap, Prim(PBigInt(i)), u, rawOk, detail) == FailureEnvelope(detail)
  {
  }
}
