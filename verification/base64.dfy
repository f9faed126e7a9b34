/**
 * Base64 as section 4 of RFC 4648 defines it (alphabet A-Z a-z 0-9 + /,
 * "=" padding), and the browser's `btoa`, which base64-encodes a string whose
 * characters are all below 256 and throws InvalidCharacterError otherwise.
 * `Decode` is the reference inverse used to show that encoding loses nothing.
 */
module Base64 {
  import opened Wrappers

  type byte = x: int | 0 <= x < 256

  /** The character for a 6-bit value (Table 1 of RFC 4648). */
  function SextetChar(i: int): (c: char)
    requires 0 <= i < 64
    ensures c != '='
  {
    if i < 26 then ('A' as int + i) as char
    else if i < 52 then ('a' as int + i - 26) as char
    else if i < 62 then ('0' as int + i - 52) as char
    else if i == 62 then '+'
    else '/'
  }

  /** The 6-bit value of an alphabet character; None for anything else, "=" included. */
  function SextetValue(c: char): (r: Option<int>)
    ensures r.Some? ==> 0 <= r.value < 64
  {
    if 'A' <= c <= 'Z' then Some(c as int - 'A' as int)
    else if 'a' <= c <= 'z' then Some(c as int - 'a' as int + 26)
    else if '0' <= c <= '9' then Some(c as int - '0' as int + 52)
    else if c == '+' then Some(62)
    else if c == '/' then Some(63)
    else None
  }

  lemma SextetRoundTrip(i: int)
    requires 0 <= i < 64
    ensures SextetValue(SextetChar(i)) == Some(i)
  {
  }

  /** Three bytes, 24 bits, as four characters. */
  function EncodeGroup(a: byte, b: byte, c: byte): string {
    [SextetChar(a / 4), SextetChar((a % 4) * 16 + b / 16), SextetChar((b % 16) * 4 + c / 64), SextetChar(c % 64)]
  }

  /** The base64 encoding of `bs`: four characters per three bytes, the last group padded with "=". */
  function Encode(bs: seq<byte>): (r: string)
    ensures |r| == 4 * ((|bs| + 2) / 3)
    decreases |bs|
  {
    if |bs| == 0 then ""
    else if |bs| == 1 then [SextetChar(bs[0] / 4), SextetChar((bs[0] % 4) * 16), '=', '=']
    else if |bs| == 2 then
      [SextetChar(bs[0] / 4), SextetChar((bs[0] % 4) * 16 + bs[1] / 16), SextetChar((bs[1] % 16) * 4), '=']
    else EncodeGroup(bs[0], bs[1], bs[2]) + Encode(bs[3..])
  }

  /** Four alphabet characters back to three bytes. */
  function DecodeGroup(q: string): Option<seq<byte>>
    requires |q| == 4
  {
    var v0, v1, v2, v3 := SextetValue(q[0]), SextetValue(q[1]), SextetValue(q[2]), SextetValue(q[3]);
    if v0.Some? && v1.Some? && v2.Some? && v3.Some? then
      Some([v0.value * 4 + v1.value / 16, (v1.value % 16) * 16 + v2.value / 4, (v2.value % 4) * 64 + v3.value])
    else None
  }

  /**
   * The final group, which may carry one or two "=" pad characters. The bits
   * a padded group leaves unused must be zero (section 3.5 of RFC 4648), so
   * that every byte string has exactly one encoding this decoder accepts.
   */
  function DecodeLast(q: string): Option<seq<byte>>
    requires |q| == 4
  {
    var v0, v1, v2 := SextetValue(q[0]), SextetValue(q[1]), SextetValue(q[2]);
    if q[2] == '=' && q[3] == '=' then
      if v0.Some? && v1.Some? && v1.value % 16 == 0 then Some([v0.value * 4 + v1.value / 16]) else None
    else if q[3] == '=' then
      if v0.Some? && v1.Some? && v2.Some? && v2.value % 4 == 0 then
        Some([v0.value * 4 + v1.value / 16, (v1.value % 16) * 16 + v2.value / 4])
      else None
    else DecodeGroup(q)
  }

  function Decode(s: string): Option<seq<byte>>
    decreases |s|
  {
    if |s| == 0 then Some([])
    else if |s| < 4 then None
    else if |s| == 4 then DecodeLast(s)
    else
      match DecodeGroup(s[..4])
      case None => None
      case Some(head) =>
        match Decode(s[4..])
        case None => None
        case Some(tail) => Some(head + tail)
  }

  lemma GroupRoundTrip(a: byte, b: byte, c: byte)
    ensures DecodeGroup(EncodeGroup(a, b, c)) == Some([a, b, c])
  {
    SextetRoundTrip(a / 4);
    SextetRoundTrip((a % 4) * 16 + b / 16);
    SextetRoundTrip((b % 16) * 4 + c / 64);
    SextetRoundTrip(c % 64);
    assert ((a % 4) * 16 + b / 16) / 16 == a % 4;
    assert ((a % 4) * 16 + b / 16) % 16 == b / 16;
    assert ((b % 16) * 4 + c / 64) / 4 == b % 16;
    assert ((b % 16) * 4 + c / 64) % 4 == c / 64;
  }

  lemma OneByteRoundTrip(a: byte)
    ensures Decode(Encode([a])) == Some([a])
  {
    SextetRoundTrip(a / 4);
    SextetRoundTrip((a % 4) * 16);
    assert (a / 4) * 4 + ((a % 4) * 16) / 16 == a;
  }

  lemma TwoByteRoundTrip(a: byte, b: byte)
    ensures Decode(Encode([a, b])) == Some([a, b])
  {
    var v1 := (a % 4) * 16 + b / 16;
    var v2 := (b % 16) * 4;
    SextetRoundTrip(a / 4);
    SextetRoundTrip(v1);
    SextetRoundTrip(v2);
    assert (a / 4) * 4 + v1 / 16 == a;
    assert (v1 % 16) * 16 + v2 / 4 == b;
    var q := Encode([a, b]);
    assert q == [SextetChar(a / 4), SextetChar(v1), SextetChar(v2), '='];
    assert DecodeLast(q) == Some([a, b]);
  }

  /** Decoding an encoding gives the bytes back: base64 is lossless. */
  lemma {:induction false} DecodeEncode(bs: seq<byte>)
    ensures Decode(Encode(bs)) == Some(bs)
    decreases |bs|
  {
    if |bs| == 1 {
      assert bs == [bs[0]];
      OneByteRoundTrip(bs[0]);
    } else if |bs| == 2 {
      assert bs == [bs[0], bs[1]];
      TwoByteRoundTrip(bs[0], bs[1]);
    } else if |bs| == 3 {
      ExactlyThree(bs);
      LastGroupRoundTrip(bs[0], bs[1], bs[2]);
    } else if |bs| > 3 {
      DecodeEncode(bs[3..]);
      EncodeFront(bs);
      GroupRoundTrip(bs[0], bs[1], bs[2]);
      SplitFront(bs);
      Combine(Encode(bs), EncodeGroup(bs[0], bs[1], bs[2]), Encode(bs[3..]), [bs[0], bs[1], bs[2]], bs[3..]);
    }
  }

  /** Decoding a full group in front of more groups puts the group's bytes in front. */
  lemma Combine(s: string, g: string, t: string, head: seq<byte>, tail: seq<byte>)
    requires s == g + t && |g| == 4 && |t| >= 4
    requires DecodeGroup(g) == Some(head) && Decode(t) == Some(tail)
    ensures Decode(s) == Some(head + tail)
  {
    DecodeFront(g, t);
  }

  lemma EncodeFront(bs: seq<byte>)
    requires |bs| > 3
    ensures Encode(bs) == EncodeGroup(bs[0], bs[1], bs[2]) + Encode(bs[3..])
    ensures |Encode(bs[3..])| >= 4
  {
  }

  lemma ExactlyThree(bs: seq<byte>)
    requires |bs| == 3
    ensures bs == [bs[0], bs[1], bs[2]]
    ensures Encode(bs) == EncodeGroup(bs[0], bs[1], bs[2])
  {
    assert bs[3..] == [];
  }

  /** A last group without padding decodes as a full group. */
  lemma LastGroupRoundTrip(a: byte, b: byte, c: byte)
    ensures Decode(EncodeGroup(a, b, c)) == Some([a, b, c])
  {
    GroupRoundTrip(a, b, c);
  }

  lemma SplitFront(bs: seq<byte>)
    requires |bs| >= 3
    ensures bs == [bs[0], bs[1], bs[2]] + bs[3..]
  {
  }

  /** Decoding a full group followed by more groups. */
  lemma DecodeFront(g: string, t: string)
    requires |g| == 4 && |t| >= 4
    ensures Decode(g + t) ==
      match DecodeGroup(g)
      case None => None
      case Some(head) => match Decode(t) case None => None case Some(tail) => Some(head + tail)
  {
    var s := g + t;
    assert s[..4] == g && s[4..] == t;
  }

  /** Encoding is injective: distinct byte strings never share an encoding. */
  lemma EncodeInjective(xs: seq<byte>, ys: seq<byte>)
    ensures Encode(xs) == Encode(ys) ==> xs == ys
  {
    DecodeEncode(xs);
    DecodeEncode(ys);
  }

  /** An alphabet character is the character of its own 6-bit value. */
  lemma CharRoundTrip(c: char)
    requires SextetValue(c).Some?
    ensures SextetChar(SextetValue(c).value) == c
  {
  }

  /** Splitting 24 bits into bytes and back into sextets gives the sextets. */
  lemma SextetsOfBytes(v0: int, v1: int, v2: int, v3: int)
    requires 0 <= v0 < 64 && 0 <= v1 < 64 && 0 <= v2 < 64 && 0 <= v3 < 64
    ensures var a, b, c := v0 * 4 + v1 / 16, (v1 % 16) * 16 + v2 / 4, (v2 % 4) * 64 + v3;
            && a / 4 == v0 && (a % 4) * 16 + b / 16 == v1
            && (b % 16) * 4 + c / 64 == v2 && c % 64 == v3
  {
  }

  /** A full group that decodes is the encoding of the bytes it decodes to. */
  lemma GroupExact(q: string)
    requires |q| == 4 && DecodeGroup(q).Some?
    ensures var b := DecodeGroup(q).value;
            |b| == 3 && EncodeGroup(b[0], b[1], b[2]) == q
  {
    var v0, v1, v2, v3 := SextetValue(q[0]).value, SextetValue(q[1]).value, SextetValue(q[2]).value, SextetValue(q[3]).value;
    SextetsOfBytes(v0, v1, v2, v3);
    CharRoundTrip(q[0]);
    CharRoundTrip(q[1]);
    CharRoundTrip(q[2]);
    CharRoundTrip(q[3]);
  }

  /** A last group that decodes is the encoding of the bytes it decodes to. */
  lemma LastExact(q: string)
    requires |q| == 4 && DecodeLast(q).Some?
    ensures Encode(DecodeLast(q).value) == q
  {
    var b := DecodeLast(q).value;
    if q[2] == '=' && q[3] == '=' {
      var v0, v1 := SextetValue(q[0]).value, SextetValue(q[1]).value;
      SextetsOfBytes(v0, v1, 0, 0);
      CharRoundTrip(q[0]);
      CharRoundTrip(q[1]);
      assert Encode(b) == [SextetChar(v0), SextetChar(v1), '=', '='];
    } else if q[3] == '=' {
      var v0, v1, v2 := SextetValue(q[0]).value, SextetValue(q[1]).value, SextetValue(q[2]).value;
      SextetsOfBytes(v0, v1, v2, 0);
      CharRoundTrip(q[0]);
      CharRoundTrip(q[1]);
      CharRoundTrip(q[2]);
      assert Encode(b) == [SextetChar(v0), SextetChar(v1), SextetChar(v2), '='];
    } else {
      GroupExact(q);
      ExactlyThree(b);
    }
  }

  /** A non-empty text that decodes gives at least one byte. */
  lemma {:induction false} DecodeNonEmpty(s: string)
    requires |s| > 0 && Decode(s).Some?
    ensures |Decode(s).value| >= 1
  {
  }

  /**
   * The decoder accepts only encodings: whatever text decodes to `bs` is
   * Encode(bs), so Encode and Decode are inverse on both sides.
   */
  lemma {:induction false} EncodeDecode(s: string)
    requires Decode(s).Some?
    ensures Encode(Decode(s).value) == s
    decreases |s|
  {
    if |s| == 4 {
      LastExact(s);
    } else if |s| > 4 {
      var g, t := s[..4], s[4..];
      assert s == g + t;
      GroupExact(g);
      EncodeDecode(t);
      DecodeNonEmpty(t);
      var head, tail := DecodeGroup(g).value, Decode(t).value;
      assert Decode(s).value == head + tail;
      var bs := head + tail;
      EncodeFront(bs);
      assert bs[3..] == tail;
      assert [bs[0], bs[1], bs[2]] == head;
    }
  }

  // ---------------------------------------------------------------------
  // Binary strings and btoa

  /** `String.fromCharCode(...bytes)`: one character per byte, with that code. */
  function Latin1(bs: seq<byte>): (s: string)
    ensures |s| == |bs| && forall i :: 0 <= i < |bs| ==> s[i] as int == bs[i]
  {
    seq(|bs|, i requires 0 <= i < |bs| => bs[i] as char)
  }

  predicate IsBinaryString(s: string) {
    forall i :: 0 <= i < |s| ==> s[i] as int < 256
  }

  function CharCodes(s: string): (bs: seq<byte>)
    requires IsBinaryString(s)
    ensures |bs| == |s| && forall i :: 0 <= i < |s| ==> bs[i] == s[i] as int
  {
    seq(|s|, i requires 0 <= i < |s| => s[i] as int)
  }

  /** `btoa(s)`: the base64 encoding of the character codes, or None where the browser throws. */
  function Btoa(s: string): (r: Option<string>)
    ensures r.Some? <==> IsBinaryString(s)
    ensures r.Some? ==> Decode(r.value) == Some(CharCodes(s))
  {
    if IsBinaryString(s) then
      DecodeEncode(CharCodes(s));
      Some(Encode(CharCodes(s)))
    else None
  }

  /** A string built from bytes is always acceptable to btoa, which then encodes those very bytes. */
  lemma BtoaOfBytes(bs: seq<byte>)
    ensures IsBinaryString(Latin1(bs))
    ensures Btoa(Latin1(bs)) == Some(Encode(bs))
  {
    assert CharCodes(Latin1(bs)) == bs;
  }
}
