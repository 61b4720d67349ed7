/** `String.prototype.trim` as the two form handlers use it: strip the
    ECMAScript WhiteSpace and LineTerminator code points from both ends. */
module Text {

  /** WhiteSpace (tab, vertical tab, form feed, space, no-break space, byte
      order mark and the other Unicode space separators) and LineTerminator
      (line feed, carriage return, line and paragraph separators) of the
      ECMAScript language specification, section 12. */
  predicate IsWhiteSpace(c: char)
  {
    || c == '\t' || c == '\U{000B}' || c == '\U{000C}' || c == ' '
    || c == '\U{00A0}' || c == '\U{FEFF}' || c == '\U{1680}'
    || ('\U{2000}' <= c <= '\U{200A}')
    || c == '\U{202F}' || c == '\U{205F}' || c == '\U{3000}'
    || c == '\n' || c == '\r' || c == '\U{2028}' || c == '\U{2029}'
  }

  predicate AllWhiteSpace(s: string)
  {
    forall k :: 0 <= k < |s| ==> IsWhiteSpace(s[k])
  }

  /** Drops the leading white space: the result is a suffix of `s`, what was
      dropped is all white space, and the result does not start with any. */
  function TrimStart(s: string): (r: string)
    ensures |r| <= |s| && r == s[|s| - |r|..]
    ensures AllWhiteSpace(s[..|s| - |r|])
    ensures r == [] || !IsWhiteSpace(r[0])
  {
    if |s| > 0 && IsWhiteSpace(s[0]) then
      var r := TrimStart(s[1..]);
      assert s[..|s| - |r|] == [s[0]] + s[1..][..|s| - 1 - |r|];
      r
    else s
  }

  /** Drops the trailing white space: the result is a prefix of `s`, what was
      dropped is all white space, and the result does not end with any. */
  function TrimEnd(s: string): (r: string)
    ensures |r| <= |s| && r == s[..|r|]
    ensures AllWhiteSpace(s[|r|..])
    ensures r == [] || !IsWhiteSpace(r[|r| - 1])
  {
    if |s| > 0 && IsWhiteSpace(s[|s| - 1]) then
      var r := TrimEnd(s[..|s| - 1]);
      assert s[|r|..] == s[..|s| - 1][|r|..] + [s[|s| - 1]];
      r
    else s
  }

  /** `s.trim()`: a slice of `s` with no white space at either end, empty
      exactly when `s` is all white space (the case the handlers reject). */
  function Trim(s: string): (r: string)
    ensures r == [] || (!IsWhiteSpace(r[0]) && !IsWhiteSpace(r[|r| - 1]))
    ensures r == [] <==> AllWhiteSpace(s)
  {
    var t := TrimStart(s);
    var r := TrimEnd(t);
    assert r != [] ==> r[0] == t[0];
    assert r == [] ==> AllWhiteSpace(t) by {
      if r == [] {
        assert t[|r|..] == t;
      }
    }
    assert r == [] ==> AllWhiteSpace(s) by {
      if r == [] {
        assert t == [];
        assert s[..|s|] == s;
      }
    }
    r
  }

  /** `s.trim()` only removes white space from the two ends of `s`: the
      result is the slice of `s` between two runs of white space. */
  lemma TrimIsSlice(s: string)
    ensures exists k :: 0 <= k <= |s| - |Trim(s)| && Trim(s) == s[k..k + |Trim(s)|]
                        && AllWhiteSpace(s[..k]) && AllWhiteSpace(s[k + |Trim(s)|..])
  {
    var t := TrimStart(s);
    var r := TrimEnd(t);
    assert Trim(s) == r;
    SliceOfSuffix(s, t, r);
  }

  /** A prefix `r` of a suffix `t` of `s` is a slice of `s`, and the white
      space dropped on either side is what `s` has outside that slice. */
  lemma SliceOfSuffix(s: string, t: string, r: string)
    requires |t| <= |s| && t == s[|s| - |t|..] && AllWhiteSpace(s[..|s| - |t|])
    requires |r| <= |t| && r == t[..|r|] && AllWhiteSpace(t[|r|..])
    ensures var k := |s| - |t|;
      k <= |s| - |r| && r == s[k..k + |r|] && AllWhiteSpace(s[..k]) && AllWhiteSpace(s[k + |r|..])
  {
    var k := |s| - |t|;
    assert s[k..k + |r|] == t[..|r|];
    assert s[k + |r|..] == t[|r|..];
  }

  /** Trimming twice is trimming once. */
  lemma TrimIdempotent(s: string)
    ensures Trim(Trim(s)) == Trim(s)
  {
    var r := Trim(s);
    assert TrimStart(r) == r;
    assert TrimEnd(r) == r;
  }
}
