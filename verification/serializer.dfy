/**
 * The log-value serializer of src/utils/logger.ts: `safeLogValue` and its
 * inner `walk`, plus `truncateString`, `toPlainError` and `safeJsonStringify`.
 *
 * `walk` is a pure function here: the WeakSet of visited objects becomes a
 * `set<int>` of heap ids that each call receives and returns, so the order in
 * which the JavaScript code visits children (array order, map entry key before
 * value, object key order) is the order in which the set is threaded.
 */
module Serializer {
  import opened Wrappers
  import opened JsValues
  import Decimal

  // ---------------------------------------------------------------------
  // Options

  /** Resolved serialize options. Plain ints: the source does not validate them. */
  datatype Options = Options(depth: int, maxKeys: int, maxArrayLength: int, maxStringLength: int)

  /** Caller-supplied options; None means the key was not supplied. */
  datatype Overrides = Overrides(depth: Option<int>, maxKeys: Option<int>, maxArrayLength: Option<int>, maxStringLength: Option<int>)

  const DefaultOptions: Options := Options(8, 80, 80, 4000)
  const NoOverrides: Overrides := Overrides(None, None, None, None)

  /** `{ ...DEFAULT_SERIALIZE, ...opts }`: every supplied field replaces its default. */
  function Resolve(u: Overrides): (o: Options)
    ensures o.depth == (if u.depth.Some? then u.depth.value else 8)
    ensures o.maxKeys == (if u.maxKeys.Some? then u.maxKeys.value else 80)
    ensures o.maxArrayLength == (if u.maxArrayLength.Some? then u.maxArrayLength.value else 80)
    ensures o.maxStringLength == (if u.maxStringLength.Some? then u.maxStringLength.value else 4000)
  {
    Options(
      u.depth.GetOr(DefaultOptions.depth),
      u.maxKeys.GetOr(DefaultOptions.maxKeys),
      u.maxArrayLength.GetOr(DefaultOptions.maxArrayLength),
      u.maxStringLength.GetOr(DefaultOptions.maxStringLength))
  }

  // ---------------------------------------------------------------------
  // Markers

  const Ellipsis: string := "\U{2026}"
  const CircularMarker: string := "[Circular]"
  const TruncatedPrefix: string := Ellipsis + "(truncated "
  const TruncatedSuffix: string := " chars)"
  const OverflowPrefix: string := Ellipsis + "(+"
  const ItemsSuffix: string := " items)"
  const EntriesSuffix: string := " entries)"
  const KeysSuffix: string := " keys)"
  const MoreKeysField: string := "__moreKeys"

  /**
   * "…(+N<noun>)" for a collection of `size` elements cut at `limit`: a string
   * from which the number of elements left out, size - limit, reads back.
   */
  function Overflow(size: int, limit: int, suffix: string): (r: Out)
    requires size > limit
    ensures r.OPrim? && r.p.PString?
    ensures Decimal.ParseMarker(OverflowPrefix, suffix, r.p.s) == Some(size - limit)
  {
    Decimal.MarkerRoundTrip(OverflowPrefix, size - limit, suffix);
    Str(Decimal.Marker(OverflowPrefix, size - limit, suffix))
  }

  // ---------------------------------------------------------------------
  // truncateString

  /** `Math.max(0, max - 24)`: how many leading characters a truncated string keeps. */
  function KeptLength(max: int): nat {
    if max - 24 > 0 then max - 24 else 0
  }

  /**
   * Strings within the limit come back unchanged; longer ones keep their first
   * KeptLength(max) characters, followed by a marker stating exactly how many
   * characters were dropped.
   */
  function TruncateString(s: string, max: int): (r: string)
    ensures |s| <= max ==> r == s
    ensures |s| > max ==>
      && KeptLength(max) <= |s| && |r| > KeptLength(max)
      && r[..KeptLength(max)] == s[..KeptLength(max)]
      && Decimal.ParseMarker(TruncatedPrefix, TruncatedSuffix, r[KeptLength(max)..]) == Some(|s| - KeptLength(max))
  {
    if |s| <= max then s
    else
      var k := KeptLength(max);
      Decimal.MarkerRoundTrip(TruncatedPrefix, |s| - k, TruncatedSuffix);
      var r := s[..k] + Decimal.Marker(TruncatedPrefix, |s| - k, TruncatedSuffix);
      assert r[k..] == Decimal.Marker(TruncatedPrefix, |s| - k, TruncatedSuffix);
      r
  }

  // ---------------------------------------------------------------------
  // toPlainError

  /** The record an Error becomes before its own fields are copied over it. */
  function ErrorBase(e: ErrorInfo): seq<(string, Out)> {
    [("name", Str(e.name)), ("message", Str(e.message)),
     ("stack", if e.stack.Some? then Str(e.stack.value) else OPrim(PUndefined))]
  }

  /** The own fields of an Error, copied raw: they are not walked. */
  function RawFields(own: seq<(string, Value)>): (r: seq<(string, Out)>)
    ensures |r| == |own|
    ensures forall i :: 0 <= i < |own| ==> r[i] == (own[i].0, Raw(own[i].1))
  {
    seq(|own|, i requires 0 <= i < |own| => (own[i].0, Raw(own[i].1)))
  }

  /** Reference reading of one key of a plain error: its last own assignment, else the base field. */
  function ErrorField(e: ErrorInfo, k: string): Option<Out> {
    match LastValue(e.own, k)
    case Some(v) => Some(Raw(v))
    case None => Lookup(ErrorBase(e), k)
  }

  /** The keys every plain error starts with. */
  const BaseKeys: seq<string> := ["name", "message", "stack"]

  /**
   * `name`, `message` and `stack` come first, followed by the own enumerable
   * keys not among them, in `Object.keys` order; each key holds its raw value,
   * a repeated key (or one of the first three) taking the value assigned last.
   */
  function ToPlainError(e: ErrorInfo): (r: seq<(string, Out)>)
    ensures DistinctKeys(r)
    ensures |r| >= 3 && r[0].0 == "name" && r[1].0 == "message" && r[2].0 == "stack"
    ensures Keys(r) == BaseKeys + NewKeys(BaseKeys, Keys(e.own))
    ensures forall k :: Lookup(r, k) == ErrorField(e, k)
  {
    var r := PutAll(ErrorBase(e), RawFields(e.own));
    PutAllKeys(ErrorBase(e), RawFields(e.own));
    PlainErrorKeyOrder(e);
    forall k ensures Lookup(r, k) == ErrorField(e, k) {
      PutAllLookup(ErrorBase(e), RawFields(e.own), k);
      LastValueRaw(e.own, k);
    }
    r
  }

  /** The key order of the record `toPlainError` builds. */
  lemma PlainErrorKeyOrder(e: ErrorInfo)
    ensures Keys(PutAll(ErrorBase(e), RawFields(e.own))) == BaseKeys + NewKeys(BaseKeys, Keys(e.own))
  {
    PutAllKeyOrder(ErrorBase(e), RawFields(e.own));
    assert Keys(ErrorBase(e)) == BaseKeys;
    assert Keys(RawFields(e.own)) == Keys(e.own);
  }

  /** Copying raw commutes with finding the last assignment of a key. */
  lemma {:induction false} LastValueRaw(own: seq<(string, Value)>, k: string)
    ensures LastValue(RawFields(own), k) == match LastValue(own, k) case Some(v) => Some(Raw(v)) case None => None
  {
    if |own| > 0 {
      assert RawFields(own)[1..] == RawFields(own[1..]);
      LastValueRaw(own[1..], k);
    }
  }

  // ---------------------------------------------------------------------
  // walk

  /** Remaining recursion budget: `walk` only recurses while depthLeft > 0. */
  function Budget(d: int): nat {
    if d <= 0 then 0 else d
  }

  /** How many elements `Array.prototype.slice(0, limit)` keeps of `len` (a negative end counts from the back). */
  function KeepCount(len: nat, limit: int): (n: nat)
    ensures n <= len
    ensures 0 <= limit ==> n == if len < limit then len else limit
  {
    if limit >= 0 then (if len < limit then len else limit)
    else if len + limit > 0 then len + limit else 0
  }

  /** `[Function name]`, with "anonymous" for an empty name. */
  function FunctionLabel(name: string): (r: string)
    ensures |r| > 11 && r[..10] == "[Function " && r[|r| - 1] == ']'
    ensures r[10..|r| - 1] == if name == "" then "anonymous" else name
  {
    "[Function " + (if name == "" then "anonymous" else name) + "]"
  }

  /** `[Object C]` where C is the constructor name, "Object" when it is missing or empty. */
  function ObjectLabel(ctor: string): string {
    "[Object " + (if ctor == "" then "Object" else ctor) + "]"
  }

  function ArrayLabel(len: nat): string {
    "[Array(" + Decimal.FromNat(len) + ")]"
  }

  /** `String(v)`, or `Object.prototype.toString` when String(v) throws. */
  function HostText(text: Option<string>, tag: string): string {
    text.GetOr(tag)
  }

  /** What a heap object becomes once the depth budget is spent (no recursion, no visit). */
  function Exhausted(node: Node, v: Value): (r: Out)
    ensures r.ORaw? <==> node.HostNode?
    ensures node.ArrayNode? ==>
      r.OPrim? && r.p.PString? && Decimal.ParseMarker("[Array(", ")]", r.p.s) == Some(|node.items|)
    ensures !node.ArrayNode? && !node.HostNode? ==>
      r.OPrim? && r.p.PString? && |r.p.s| > 9 && r.p.s[..8] == "[Object " && r.p.s[|r.p.s| - 1] == ']'
  {
    match node
    case ArrayNode(items) =>
      Decimal.MarkerRoundTrip("[Array(", |items|, ")]");
      Str(ArrayLabel(|items|))
    case MapNode(ctor, _) => Str(ObjectLabel(ctor))
    case SetNode(ctor, _) => Str(ObjectLabel(ctor))
    case ObjectNode(ctor, _) => Str(ObjectLabel(ctor))
    case HostNode(_, _) => ORaw(v)
  }

  /** A heap object the cycle check applies to (`v && typeof v === 'object'`). */
  predicate IsComposite(heap: Heap, id: int) {
    id in heap && !heap[id].HostNode?
  }

  /**
   * One step of `walk(v, depthLeft)` with the visited set `seen`: the rendered
   * value and the visited set afterwards. Visiting only ever adds heap ids.
   */
  function Walk(heap: Heap, o: Options, v: Value, depthLeft: int, seen: set<int>): (r: (Out, set<int>))
    ensures seen <= r.1 <= seen + heap.Keys
    ensures v.Ref? && IsComposite(heap, v.id) && depthLeft > 0 ==> v.id in r.1
    decreases Budget(depthLeft), 0, 0
  {
    match v
    case Prim(p) => (OPrim(p), seen)
    case DateValue(iso) => (Str(iso), seen)
    case RegExpValue(text) => (Str(text), seen)
    case ErrorValue(e) => (ORecord(ToPlainError(e)), seen)
    case FunctionValue(name) => (Str(FunctionLabel(name)), seen)
    case Ref(id) =>
      if id !in heap then (OPrim(PUndefined), seen)
      else if depthLeft <= 0 then (Exhausted(heap[id], v), seen)
      else if heap[id].HostNode? then (Str(HostText(heap[id].text, heap[id].tag)), seen)
      else if id in seen then (Str(CircularMarker), seen)
      else WalkObject(heap, o, heap[id], depthLeft - 1, seen + {id})
  }

  /**
   * The body of `walk` for an array, Map, Set or plain object not seen before,
   * its id already added to `seen`; children are walked with budget `d`.
   */
  function WalkObject(heap: Heap, o: Options, node: Node, d: int, seen: set<int>): (r: (Out, set<int>))
    requires !node.HostNode? && d >= 0
    ensures seen <= r.1 <= seen + heap.Keys
    ensures r.0.OArray? <==> node.ArrayNode?
    ensures !node.ArrayNode? ==> r.0.ORecord?
    decreases Budget(d), 2, 0
  {
    match node
    case ArrayNode(items) =>
      var w := WalkList(heap, o, items[..KeepCount(|items|, o.maxArrayLength)], d, seen);
      var more := if |items| > o.maxArrayLength then [Overflow(|items|, o.maxArrayLength, ItemsSuffix)] else [];
      (OArray(w.0 + more), w.1)
    case MapNode(_, entries) =>
      var w := WalkEntries(heap, o, entries[..KeepCount(|entries|, o.maxKeys)], d, seen);
      var more := if |entries| > o.maxKeys then [("more", Overflow(|entries|, o.maxKeys, EntriesSuffix))] else [];
      (ORecord([("type", Str("Map")), ("entries", OArray(w.0))] + more), w.1)
    case SetNode(_, members) =>
      var w := WalkList(heap, o, members[..KeepCount(|members|, o.maxArrayLength)], d, seen);
      var more := if |members| > o.maxArrayLength then [("more", Overflow(|members|, o.maxArrayLength, ItemsSuffix))] else [];
      (ORecord([("type", Str("Set")), ("values", OArray(w.0))] + more), w.1)
    case ObjectNode(_, fields) =>
      var w := WalkFields(heap, o, fields[..KeepCount(|fields|, o.maxKeys)], d, seen);
      var out := PutAll([], w.0);
      (ORecord(if |fields| > o.maxKeys then Put(out, MoreKeysField, Overflow(|fields|, o.maxKeys, KeysSuffix)) else out), w.1)
  }

  /** `xs.map(item => walk(item, d))`, left to right. */
  function WalkList(heap: Heap, o: Options, xs: seq<Value>, d: int, seen: set<int>): (r: (seq<Out>, set<int>))
    ensures |r.0| == |xs|
    ensures seen <= r.1 <= seen + heap.Keys
    decreases Budget(d), 1, |xs|
  {
    if |xs| == 0 then ([], seen)
    else
      var h := Walk(heap, o, xs[0], d, seen);
      var t := WalkList(heap, o, xs[1..], d, h.1);
      ([h.0] + t.0, t.1)
  }

  /** Map entries: the key is walked, then the value; each entry becomes a pair. */
  function WalkEntries(heap: Heap, o: Options, es: seq<(Value, Value)>, d: int, seen: set<int>): (r: (seq<Out>, set<int>))
    ensures |r.0| == |es|
    ensures seen <= r.1 <= seen + heap.Keys
    decreases Budget(d), 1, |es|
  {
    if |es| == 0 then ([], seen)
    else
      var k := Walk(heap, o, es[0].0, d, seen);
      var v := Walk(heap, o, es[0].1, d, k.1);
      var t := WalkEntries(heap, o, es[1..], d, v.1);
      ([OArray([k.0, v.0])] + t.0, t.1)
  }

  /** Object fields: each value walked in key order, its key kept. */
  function WalkFields(heap: Heap, o: Options, fs: seq<(string, Value)>, d: int, seen: set<int>): (r: (seq<(string, Out)>, set<int>))
    ensures Keys(r.0) == Keys(fs)
    ensures seen <= r.1 <= seen + heap.Keys
    decreases Budget(d), 1, |fs|
  {
    if |fs| == 0 then ([], seen)
    else
      var h := Walk(heap, o, fs[0].1, d, seen);
      var t := WalkFields(heap, o, fs[1..], d, h.1);
      KeysFront(fs);
      KeysCons(fs[0].0, h.0, t.0);
      ([(fs[0].0, h.0)] + t.0, t.1)
  }

  /** `safeLogValue(value, opts)`: a fresh visited set and the resolved depth. */
  function SafeLogValue(heap: Heap, v: Value, u: Overrides): (r: Out)
    ensures v.Prim? ==> r == OPrim(v.p)
    ensures v.Ref? && v.id in heap && Resolve(u).depth <= 0 ==> r == Exhausted(heap[v.id], v)
    ensures v.Ref? && v.id !in heap ==> r == OPrim(PUndefined)
  {
    Walk(heap, Resolve(u), v, Resolve(u).depth, {}).0
  }

  // ---------------------------------------------------------------------
  // safeJsonStringify

  /**
   * Whether JSON.stringify accepts a walked value: it throws on a bigint;
   * `rawOk` is its verdict on a raw (unwalked) value, which depends on the
   * whole object graph behind it.
   */
  predicate Encodable(x: Out, rawOk: Value -> bool) {
    match x
    case OPrim(p) => !p.PBigInt?
    case OArray(items) => forall i :: 0 <= i < |items| ==> Encodable(items[i], rawOk)
    case ORecord(fields) => forall i :: 0 <= i < |fields| ==> Encodable(fields[i].1, rawOk)
    case ORaw(v) => rawOk(v)
  }

  /** The document encoded when encoding the walked value throws; `detail` is String(e). */
  function FailureEnvelope(detail: string): Out {
    ORecord([("error", Str("safeJsonStringify_failed")), ("detail", Str(detail))])
  }

  /**
   * The document `safeJsonStringify` hands to the encoder successfully: the
   * walked value when it is encodable, the failure envelope otherwise.
   */
  function SafeJsonStringify(heap: Heap, v: Value, u: Overrides, rawOk: Value -> bool, detail: string): (r: Out)
    ensures Encodable(r, rawOk)
    ensures Encodable(SafeLogValue(heap, v, u), rawOk) ==> r == SafeLogValue(heap, v, u)
    ensures !Encodable(SafeLogValue(heap, v, u), rawOk) ==> r.ORecord? && Lookup(r.fields, "error") == Some(Str("safeJsonStringify_failed"))
  {
    var walked := SafeLogValue(heap, v, u);
    if Encodable(walked, rawOk) then walked else FailureEnvelope(detail)
  }
}
