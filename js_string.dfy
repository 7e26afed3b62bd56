/** JavaScript's `String.prototype.trim`: strip leading and trailing
    white space and line terminators. */
module JsString {

  /** The code points ECMAScript counts as WhiteSpace or LineTerminator:
      TAB, LF, VT, FF, CR, SPACE, NO-BREAK SPACE, the space separators
      (U+1680, U+2000..U+200A, U+202F, U+205F, U+3000), LINE SEPARATOR,
      PARAGRAPH SEPARATOR and the byte order mark U+FEFF. */
  predicate IsWhiteSpace(c: char) {
    var n := c as int;
    || (0x09 <= n <= 0x0D)
    || n == 0x20
    || n == 0xA0
    || n == 0x1680
    || (0x2000 <= n <= 0x200A)
    || n == 0x2028
    || n == 0x2029
    || n == 0x202F
    || n == 0x205F
    || n == 0x3000
    || n == 0xFEFF
  }

  /** Every character is white space (the empty string included). */
  predicate IsBlank(s: string) {
    forall i :: 0 <= i < |s| ==> IsWhiteSpace(s[i])
  }

  /** Drops the white space at the front: the result is a suffix of `s`,
      what was dropped is blank, and the result does not start with white space. */
  function TrimStart(s: string): (r: string)
    ensures |r| <= |s| && r == s[|s| - |r|..]
    ensures IsBlank(s[..|s| - |r|])
    ensures r == [] || !IsWhiteSpace(r[0])
  {
    if |s| > 0 && IsWhiteSpace(s[0]) then TrimStart(s[1..]) else s
  }

  /** Drops the white space at the back: the result is a prefix of `s`,
      what was dropped is blank, and the result does not end with white space. */
  function TrimEnd(s: string): (r: string)
    ensures |r| <= |s| && r == s[..|r|]
    ensures IsBlank(s[|r|..])
    ensures r == [] || !IsWhiteSpace(r[|r| - 1])
  {
    if |s| > 0 && IsWhiteSpace(s[|s| - 1]) then
      var r := TrimEnd(s[..|s| - 1]);
      assert s[|r|..] == s[..|s| - 1][|r|..] + [s[|s| - 1]];
      r
    else s
  }

  /** `s.trim()`. It is empty exactly when `s` is blank, and otherwise neither
      starts nor ends with white space. Its value is pinned down by
      TrimIsInnerSlice below: it is the one slice of `s` with only white
      space outside it and none at its ends. */
  function Trim(s: string): (r: string)
    ensures |r| <= |s|
    ensures r == [] <==> IsBlank(s)
    ensures r != [] ==> !IsWhiteSpace(r[0]) && !IsWhiteSpace(r[|r| - 1])
  {
    var t := TrimStart(s);
    var r := TrimEnd(t);
    assert r == [] && IsBlank(s[..|s| - |t|]) && IsBlank(t) ==> IsBlank(s) by {
      if r == [] && IsBlank(s[..|s| - |t|]) && IsBlank(t) {
        assert s == s[..|s| - |t|] + t;
      }
    }
    assert r == [] ==> IsBlank(t) by {
      if r == [] { assert t[|r|..] == t; }
    }
    r
  }

  /** TrimStart stops at the first character that is not white space. */
  lemma {:induction false} TrimStartAt(s: string, i: nat)
    requires i <= |s| && IsBlank(s[..i])
    requires i < |s| ==> !IsWhiteSpace(s[i])
    ensures TrimStart(s) == s[i..]
  {
    if i > 0 {
      assert IsWhiteSpace(s[..i][0]);
      assert s[1..][..i - 1] == s[..i][1..];
      TrimStartAt(s[1..], i - 1);
      assert s[1..][i - 1..] == s[i..];
    }
  }

  /** TrimEnd stops after the last character that is not white space. */
  lemma TrimEndAt(s: string, j: nat)
    requires j <= |s| && IsBlank(s[j..])
    requires 0 < j ==> !IsWhiteSpace(s[j - 1])
    ensures TrimEnd(s) == s[..j]
  {
  }

  /** Two blank strings make a blank string. */
  lemma BlankConcat(p: string, q: string)
    requires IsBlank(p) && IsBlank(q)
    ensures IsBlank(p + q)
  {
  }

  /** The trimmed string is THE slice `s[i..j]` that has only white space
      outside it and no white space at either of its ends. */
  lemma {:induction false} TrimIsInnerSlice(s: string, i: nat, j: nat)
    requires i <= j <= |s|
    requires IsBlank(s[..i]) && IsBlank(s[j..])
    requires i < j ==> !IsWhiteSpace(s[i]) && !IsWhiteSpace(s[j - 1])
    ensures Trim(s) == s[i..j]
  {
    if i == j {
      BlankConcat(s[..i], s[i..]);
      assert s[..i] + s[i..] == s;
    } else {
      TrimNonBlank(s, i, j);
    }
  }

  /** The case of TrimIsInnerSlice where the slice is not empty. */
  lemma TrimNonBlank(s: string, i: nat, j: nat)
    requires i < j <= |s|
    requires IsBlank(s[..i]) && IsBlank(s[j..])
    requires !IsWhiteSpace(s[i]) && !IsWhiteSpace(s[j - 1])
    ensures Trim(s) == s[i..j]
  {
    TrimStartAt(s, i);
    var t := s[i..];
    assert t[j - i..] == s[j..] && t[j - i - 1] == s[j - 1];
    TrimEndAt(t, j - i);
    assert t[..j - i] == s[i..j];
  }

  /** Trimming twice is trimming once. */
  lemma TrimIdempotent(s: string)
    ensures Trim(Trim(s)) == Trim(s)
  {
  }
}
