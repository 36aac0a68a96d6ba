/** Python's whitespace trimming on strings (`str.strip()` and `str.rstrip()`
    called without arguments), which the library store applies to the typed
    title and to the text of the notes editor. */
module Text {

  /** Python's `str.isspace` on one character: the characters whose Unicode
      bidirectional class is WS, B or S, or whose category is Zs. */
  predicate IsSpace(c: char) {
    || ('\t' <= c <= '\r')                 // \t \n \v \f \r
    || ('\U{1C}' <= c <= ' ')              // file/group/record/unit separators, space
    || c == '\U{85}' || c == '\U{A0}' || c == '\U{1680}'
    || ('\U{2000}' <= c <= '\U{200A}')
    || c == '\U{2028}' || c == '\U{2029}' || c == '\U{202F}' || c == '\U{205F}'
    || c == '\U{3000}'
  }

  /** Every character of `s` from position `lo` up to `hi` is whitespace. */
  predicate SpaceBetween(s: string, lo: int, hi: int)
    requires 0 <= lo && hi <= |s|
  {
    forall k | lo <= k < hi :: IsSpace(s[k])
  }

  predicate AllSpace(s: string) {
    SpaceBetween(s, 0, |s|)
  }

  /** `s.rstrip()`: the longest prefix of `s` that does not end in whitespace. */
  function RStrip(s: string): (r: string)
    ensures |r| <= |s| && r == s[..|r|]
    ensures SpaceBetween(s, |r|, |s|)
    ensures r == [] || !IsSpace(r[|r| - 1])
  {
    if s != [] && IsSpace(s[|s| - 1]) then RStrip(s[..|s| - 1]) else s
  }

  /** `s.lstrip()`: the longest suffix of `s` that does not start with whitespace. */
  function LStrip(s: string): (r: string)
    ensures |r| <= |s| && r == s[|s| - |r|..]
    ensures SpaceBetween(s, 0, |s| - |r|)
    ensures r == [] || !IsSpace(r[0])
  {
    if s != [] && IsSpace(s[0]) then
      var r := LStrip(s[1..]);
      assert forall k | 1 <= k < |s| - |r| :: s[k] == s[1..][k - 1];
      r
    else
      s
  }

  /** `s.strip()`: `s` with its leading and trailing whitespace cut off, so a
      contiguous slice of `s` with only whitespace on either side of it. */
  function Strip(s: string): (r: string)
    ensures |r| <= |s|
    ensures exists i :: 0 <= i <= |s| - |r| && r == s[i..i + |r|] && SpaceBetween(s, 0, i) && SpaceBetween(s, i + |r|, |s|)
    ensures r == [] || (!IsSpace(r[0]) && !IsSpace(r[|r| - 1]))
  {
    var m := RStrip(s);
    var r := LStrip(m);
    var i := |m| - |r|;
    assert SpaceBetween(s, 0, i) by {
      forall k | 0 <= k < i ensures IsSpace(s[k]) {
        assert s[k] == m[k];
      }
    }
    assert r == s[i..i + |r|] by {
      assert m == s[..|m|] && r == m[i..];
    }
    r
  }

  /** The contract of RStrip determines its result: any prefix of `s` that
      does not end in whitespace and leaves only whitespace behind is it. */
  lemma RStripUnique(s: string, r: string)
    requires |r| <= |s| && r == s[..|r|] && SpaceBetween(s, |r|, |s|)
    requires r == [] || !IsSpace(r[|r| - 1])
    ensures r == RStrip(s)
  {
    var m := RStrip(s);
    NoSpaceEndWithin(s, m, |r|);
    NoSpaceEndWithin(s, r, |m|);
  }

  /** A prefix `p` of `s` ending in a non-space character cannot reach past
      a point `q` after which `s` holds only whitespace. */
  lemma NoSpaceEndWithin(s: string, p: string, q: nat)
    requires |p| <= |s| && p == s[..|p|] && (p == [] || !IsSpace(p[|p| - 1]))
    requires q <= |s| && SpaceBetween(s, q, |s|)
    ensures |p| <= q
  {
    if p != [] {
      assert !IsSpace(s[|p| - 1]);
    }
  }

  /** A trailing newline makes no difference to `rstrip`: Tk's `Text.get`
      always appends one to the editor's contents. */
  lemma RStripIgnoresNewline(s: string)
    ensures RStrip(s + "\n") == RStrip(s)
  {
    assert (s + "\n")[..|s|] == s;
  }

  /** A string strips to nothing exactly when it is all whitespace. */
  lemma StripEmptyIff(s: string)
    ensures Strip(s) == [] <==> AllSpace(s)
  {
    var m := RStrip(s);
    RStripEmptyIff(s);
    LStripEmptyIff(m);
    RStripEmptyIff(m);
  }

  lemma RStripEmptyIff(s: string)
    ensures RStrip(s) == [] <==> AllSpace(s)
  {
    var r := RStrip(s);
    if r != [] {
      assert s[|r| - 1] == r[|r| - 1];
    }
  }

  lemma LStripEmptyIff(s: string)
    ensures LStrip(s) == [] <==> AllSpace(s)
  {
    var r := LStrip(s);
    if r != [] {
      assert s[|s| - |r|] == r[0];
    }
  }
}
