/**
 * Whitespace trimming as done by Go's `strings.TrimSpace`: leading and
 * trailing runes for which `unicode.IsSpace` holds are removed, everything
 * in between is kept as it is. Strings are sequences of Unicode code points.
 */
module Trim {

  /** Go's `unicode.IsSpace`: the ASCII controls TAB, LF, VT, FF, CR, the
      space, NEL (U+0085), NO-BREAK SPACE (U+00A0) and the rest of Unicode's
      White_Space property. */
  predicate IsSpace(c: char) {
    var n := c as int;
    || 0x09 <= n <= 0x0D
    || n == 0x20
    || n == 0x85
    || n == 0xA0
    || n == 0x1680
    || 0x2000 <= n <= 0x200A
    || n == 0x2028
    || n == 0x2029
    || n == 0x202F
    || n == 0x205F
    || n == 0x3000
  }

  /** Every rune of `s` is whitespace (the empty string included). */
  predicate AllSpace(s: string) {
    forall i :: 0 <= i < |s| ==> IsSpace(s[i])
  }

  /** `s` neither starts nor ends with whitespace. */
  predicate IsTrimmed(s: string) {
    s == [] || (!IsSpace(s[0]) && !IsSpace(s[|s| - 1]))
  }

  /** `strings.TrimLeftFunc(s, unicode.IsSpace)`: the longest suffix of `s`
      that does not start with whitespace; what is cut off is all whitespace. */
  function TrimLeftSpace(s: string): (r: string)
    ensures |r| <= |s| && r == s[|s| - |r|..]
    ensures AllSpace(s[..|s| - |r|])
    ensures r == [] || !IsSpace(r[0])
  {
    if s != [] && IsSpace(s[0]) then
      var r := TrimLeftSpace(s[1..]);
      assert s[..|s| - |r|] == [s[0]] + s[1..][..|s| - 1 - |r|];
      r
    else s
  }

  /** `strings.TrimRightFunc(s, unicode.IsSpace)`: the longest prefix of `s`
      that does not end with whitespace; what is cut off is all whitespace. */
  function TrimRightSpace(s: string): (r: string)
    ensures |r| <= |s| && r == s[..|r|]
    ensures AllSpace(s[|r|..])
    ensures r == [] || !IsSpace(r[|r| - 1])
  {
    if s != [] && IsSpace(s[|s| - 1]) then
      var r := TrimRightSpace(s[..|s| - 1]);
      assert s[|r|..] == s[..|s| - 1][|r|..] + [s[|s| - 1]];
      r
    else s
  }

  /** `strings.TrimSpace`: `s` without its leading and trailing whitespace.
      The result is trimmed, and it is empty exactly when `s` is all
      whitespace. */
  function TrimSpace(s: string): (r: string)
    ensures IsTrimmed(r)
    ensures r == [] <==> AllSpace(s)
  {
    var t := TrimLeftSpace(s);
    var r := TrimRightSpace(t);
    assert r == [] ==> AllSpace(s) by {
      if r == [] {
        assert AllSpace(t);
        assert s == s[..|s| - |t|] + t;
      }
    }
    assert AllSpace(s) ==> t == [];
    r
  }

  /** Cutting leading whitespace off a string that is whitespace followed by
      a part that does not start with whitespace leaves exactly that part. */
  lemma TrimLeftSpaceOfPadded(w: string, t: string)
    requires AllSpace(w)
    requires t == [] || !IsSpace(t[0])
    ensures TrimLeftSpace(w + t) == t
  {
    var s := w + t;
    var r := TrimLeftSpace(s);
    assert |r| == |t|;
    assert r == s[|w|..];
    assert s[|w|..] == t;
  }

  /** The mirror image of TrimLeftSpaceOfPadded for trailing whitespace. */
  lemma TrimRightSpaceOfPadded(t: string, w: string)
    requires AllSpace(w)
    requires t == [] || !IsSpace(t[|t| - 1])
    ensures TrimRightSpace(t + w) == t
  {
    var s := t + w;
    var r := TrimRightSpace(s);
    assert forall k :: |t| <= k < |s| ==> s[k] == w[k - |t|];
    assert t != [] ==> s[|t| - 1] == t[|t| - 1];
    assert |r| == |t|;
    assert r == s[..|t|];
    assert s[..|t|] == t;
  }

  /** TrimSpace removes any whitespace padding around a trimmed string and
      nothing else: this characterises its result completely. */
  lemma TrimSpaceOfPadded(w1: string, t: string, w2: string)
    requires AllSpace(w1) && AllSpace(w2)
    requires IsTrimmed(t)
    ensures TrimSpace(w1 + t + w2) == t
  {
    if t == [] {
      assert w1 + t + w2 == w1 + w2;
      assert AllSpace(w1 + w2);
    } else {
      assert w1 + t + w2 == w1 + (t + w2);
      TrimLeftSpaceOfPadded(w1, t + w2);
      TrimRightSpaceOfPadded(t, w2);
    }
  }

  /** The result of TrimSpace is `s` with a whitespace prefix and a
      whitespace suffix removed. */
  lemma TrimSpaceIsInfix(s: string)
    ensures exists i, j :: 0 <= i <= j <= |s| && AllSpace(s[..i]) && AllSpace(s[j..]) && TrimSpace(s) == s[i..j]
  {
    var t := TrimLeftSpace(s);
    var r := TrimRightSpace(t);
    var i := |s| - |t|;
    var j := i + |r|;
    assert t[|r|..] == s[j..];
    assert r == s[i..j];
    assert TrimSpace(s) == r;
    assert 0 <= i <= j <= |s| && AllSpace(s[..i]) && AllSpace(s[j..]) && TrimSpace(s) == s[i..j];
  }

  /** A trimmed string is its own TrimSpace: neither end is cut. */
  lemma TrimmedIsFixed(t: string)
    requires IsTrimmed(t)
    ensures TrimSpace(t) == t
  {
    assert TrimLeftSpace(t) == t;
    assert TrimRightSpace(t) == t;
  }

  /** Trimming twice is trimming once. */
  lemma TrimSpaceIdempotent(s: string)
    ensures TrimSpace(TrimSpace(s)) == TrimSpace(s)
  {
    TrimmedIsFixed(TrimSpace(s));
  }

  /** A string is left alone by TrimSpace exactly when it is already trimmed. */
  lemma TrimSpaceFixedPoint(s: string)
    ensures TrimSpace(s) == s <==> IsTrimmed(s)
  {
    if IsTrimmed(s) {
      TrimmedIsFixed(s);
    }
  }

  /** A file holding one trimmed line and its newline reads back as the line. */
  lemma TrimSpaceOfLine(t: string)
    requires IsTrimmed(t)
    ensures TrimSpace(t + "\n") == t
  {
    assert t + "\n" == [] + t + "\n";
    TrimSpaceOfPadded([], t, "\n");
  }

  /** The password file of the repository's tests: "fromfile\n" is read as
      "fromfile". */
  lemma TrimSpaceOfPasswordFile()
    ensures TrimSpace("fromfile\n") == "fromfile"
  {
    assert "fromfile" + "\n" == "fromfile\n";
    assert IsTrimmed("fromfile");
    TrimSpaceOfLine("fromfile");
  }

  /** The whitespace-only text " \t\r\n" trims to the empty string. */
  lemma TrimSpaceOfBlankFile()
    ensures TrimSpace(" \t\r\n") == ""
  {
    assert AllSpace(" \t\r\n");
  }
}
