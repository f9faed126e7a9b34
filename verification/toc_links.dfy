/**
 * In-page table-of-contents links of the disclaimer dialog
 * (src/components/popup/DisclaimerModal.tsx): the guard on the href, the
 * fragment id it extracts, and the escaping that turns that id into a CSS
 * id selector.
 */
module TocLinks {
  import opened Wrappers

  /** The characters of the character class at line 30; each is prefixed with a backslash. */
  predicate IsSpecial(c: char) {
    c in {' ', '#', '.', ';', '?', '+', '*', '~', '\'', '"', '!', '^', '$',
          '[', ']', '(', ')', '=', '>', '|', '/', '@'}
  }

  function CountSpecial(s: string): nat {
    if |s| == 0 then 0 else CountSpecial(s[..|s| - 1]) + (if IsSpecial(s[|s| - 1]) then 1 else 0)
  }

  /** `rawId.replace(/([...])/g, '\\$1')`: every special character gets a backslash in front. */
  function Escape(s: string): (r: string)
    ensures |r| == |s| + CountSpecial(s)
  {
    if |s| == 0 then ""
    else
      var c := s[|s| - 1];
      Escape(s[..|s| - 1]) + (if IsSpecial(c) then ['\\', c] else [c])
  }

  /**
   * Reference reading of an escaped identifier, as a CSS parser reads it for
   * the characters above: a backslash followed by a special character stands
   * for that character; anything else stands for itself.
   */
  function Unescape(r: string): string {
    if |r| == 0 then ""
    else if |r| >= 2 && r[0] == '\\' && IsSpecial(r[1]) then [r[1]] + Unescape(r[2..])
    else [r[0]] + Unescape(r[1..])
  }

  /** Escaping distributes over concatenation (the replacement is global and per character). */
  lemma {:induction false} EscapeAppend(a: string, b: string)
    ensures Escape(a + b) == Escape(a) + Escape(b)
    decreases |b|
  {
    if |b| == 0 {
      assert a + b == a;
    } else {
      var c := b[|b| - 1];
      var b' := b[..|b| - 1];
      assert (a + b)[..|a + b| - 1] == a + b';
      assert (a + b)[|a + b| - 1] == c;
      EscapeAppend(a, b');
    }
  }

  /** Escaping a single character. */
  lemma EscapeChar(c: char)
    ensures Escape([c]) == if IsSpecial(c) then ['\\', c] else [c]
  {
    assert [c][..0] == [];
  }

  /** An escaped string never starts with a bare special character. */
  lemma EscapedHead(t: string)
    ensures |Escape(t)| > 0 ==> !IsSpecial(Escape(t)[0])
  {
    if |t| > 0 {
      assert t == [t[0]] + t[1..];
      EscapeAppend([t[0]], t[1..]);
      EscapeChar(t[0]);
    }
  }

  /** Unescape reads back one escaped character at the front of an escaped string. */
  lemma UnescapeFront(c: char, tail: string)
    ensures Unescape(Escape([c]) + Escape(tail)) == [c] + Unescape(Escape(tail))
  {
    var rest := Escape(tail);
    EscapeChar(c);
    if IsSpecial(c) {
      assert (['\\', c] + rest)[2..] == rest;
    } else {
      assert ([c] + rest)[1..] == rest;
      EscapedHead(tail);
    }
  }

  /** The escaped id reads back as the id: escaping loses nothing. */
  lemma {:induction false} UnescapeEscape(s: string)
    ensures Unescape(Escape(s)) == s
    decreases |s|
  {
    if |s| == 0 {
    } else {
      var c := s[0];
      var tail := s[1..];
      assert s == [c] + tail;
      EscapeAppend([c], tail);
      UnescapeFront(c, tail);
      UnescapeEscape(tail);
    }
  }

  /** Distinct ids give distinct selectors. */
  lemma EscapeInjective(s: string, t: string)
    requires Escape(s) == Escape(t)
    ensures s == t
  {
    UnescapeEscape(s);
    UnescapeEscape(t);
  }

  /** An id with no special character is used verbatim. */
  lemma {:induction false} PlainIdsUnchanged(s: string)
    requires forall i :: 0 <= i < |s| ==> !IsSpecial(s[i])
    ensures Escape(s) == s
    decreases |s|
  {
    if |s| > 0 {
      PlainIdsUnchanged(s[..|s| - 1]);
      assert s[..|s| - 1] + [s[|s| - 1]] == s;
    }
  }

  predicate StartsWithHash(href: string) {
    |href| > 0 && href[0] == '#'
  }

  /** What one call of `handleTocClick(href, event)` does. */
  datatype TocOutcome =
    | Ignored                    // early return, the browser follows the link
    | DecodeFailed               // default prevented, decodeURIComponent threw
    | NoContainer                // default prevented, the content element is not mounted
    | Query(selector: string)    // default prevented, querySelector(selector) on the content element
  {
    predicate Prevented() { !Ignored? }
  }

  /**
   * `handleTocClick(href, event)` with the event present. `decodeUri` stands
   * for decodeURIComponent (None = it throws a URIError) and `mounted` for
   * `contentRef.current` being set.
   */
  function HandleTocClick(href: Option<string>, decodeUri: string -> Option<string>, mounted: bool): (r: TocOutcome)
    ensures r.Ignored? <==> !(href.Some? && StartsWithHash(href.value))
    ensures r.DecodeFailed? <==>
      href.Some? && StartsWithHash(href.value) && decodeUri(href.value[1..]).None?
    ensures r.NoContainer? <==>
      href.Some? && StartsWithHash(href.value) && decodeUri(href.value[1..]).Some? && !mounted
    ensures r.Query? ==>
      href.Some? && StartsWithHash(href.value) && mounted
      && decodeUri(href.value[1..]).Some?
      && r.selector == "#" + Escape(decodeUri(href.value[1..]).value)
      && Unescape(r.selector[1..]) == decodeUri(href.value[1..]).value
  {
    match href
    case None => Ignored
    case Some(h) =>
      if !StartsWithHash(h) then Ignored
      else
        match decodeUri(h[1..])
        case None => DecodeFailed
        case Some(rawId) =>
          if !mounted then NoContainer
          else
            UnescapeEscape(rawId);
            assert ("#" + Escape(rawId))[1..] == Escape(rawId);
            Query("#" + Escape(rawId))
  }

  /** The fragment is everything after the leading '#', decoded once, then escaped. */
  lemma QuerySelectorForFragment(frag: string, decodeUri: string -> Option<string>, rawId: string)
    requires decodeUri(frag) == Some(rawId)
    ensures HandleTocClick(Some("#" + frag), decodeUri, true) == Query("#" + Escape(rawId))
  {
    assert ("#" + frag)[1..] == frag;
  }

  /** The anchor's onClick (lines 73-75): forwards to handleTocClick only for hrefs starting with '#'. */
  function OnAnchorClick(href: Option<string>, decodeUri: string -> Option<string>, mounted: bool): (r: Option<TocOutcome>)
    ensures r.Some? <==> href.Some? && StartsWithHash(href.value)
    ensures r.Some? ==> r.value == HandleTocClick(href, decodeUri, mounted)
  {
    if href.Some? && StartsWithHash(href.value) then Some(HandleTocClick(href, decodeUri, mounted))
    else None
  }

  /** Every click the anchor forwards gets its default prevented: the inner guard never fires from it. */
  lemma ForwardedClicksArePrevented(href: Option<string>, decodeUri: string -> Option<string>, mounted: bool)
    requires OnAnchorClick(href, decodeUri, mounted).Some?
    ensures OnAnchorClick(href, decodeUri, mounted).value.Prevented()
  {
  }
}
