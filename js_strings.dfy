/**
 * JavaScript strings as the source sees them: sequences of UTF-16 code units,
 * which is what `length`, `charCodeAt`, `substring`, `===` and `trim` work on.
 */
module JsStrings {

  /** One UTF-16 code unit. */
  type CodeUnit = c: int | 0 <= c < 0x1_0000

  type JsString = seq<CodeUnit>

  /** The code units of a literal written in the source (all of them are ASCII). */
  function Lit(s: string): (r: JsString)
    ensures |r| == |s|
    ensures forall i :: 0 <= i < |s| && (s[i] as int) < 0x1_0000 ==> r[i] == s[i] as int
  {
    seq(|s|, i requires 0 <= i < |s| => if (s[i] as int) < 0x1_0000 then s[i] as int else 0)
  }

  /** `s.substring(0, n)` for n >= 0: the first n code units, or all of them when there are fewer. */
  function Head(s: JsString, n: nat): (r: JsString)
    ensures |r| == if |s| < n then |s| else n
    ensures r == s[..|r|]
  {
    if |s| <= n then s else s[..n]
  }

  const Space: CodeUnit := 0x20
  const Ellipsis: JsString := [0x2E, 0x2E, 0x2E]

  /**
   * The code units that `\s` in a regular expression and String.prototype.trim
   * treat as white space: WhiteSpace and LineTerminator of ECMA-262, section 12.2
   * and 12.3 (tab, vertical tab, form feed, space, no-break space, byte order mark,
   * the Zs category, line feed, carriage return, line and paragraph separator).
   */
  predicate IsWhitespace(c: CodeUnit) {
    c == 0x09 || c == 0x0A || c == 0x0B || c == 0x0C || c == 0x0D || c == 0x20
    || c == 0xA0 || c == 0x1680 || (0x2000 <= c <= 0x200A) || c == 0x2028
    || c == 0x2029 || c == 0x202F || c == 0x205F || c == 0x3000 || c == 0xFEFF
  }

  predicate AllWhitespace(s: JsString) {
    forall i :: 0 <= i < |s| ==> IsWhitespace(s[i])
  }

  predicate NoWhitespace(s: JsString) {
    forall i :: 0 <= i < |s| ==> !IsWhitespace(s[i])
  }

  /** Leading white space removed: the longest suffix that does not start with white space. */
  function TrimStart(s: JsString): (r: JsString)
    ensures |r| <= |s| && r == s[|s| - |r|..]
    ensures r == [] || !IsWhitespace(r[0])
    ensures AllWhitespace(s[..|s| - |r|])
  {
    if s != [] && IsWhitespace(s[0]) then TrimStart(s[1..]) else s
  }

  /** Trailing white space removed: the longest prefix that does not end in white space. */
  function TrimEnd(s: JsString): (r: JsString)
    ensures |r| <= |s| && r == s[..|r|]
    ensures r == [] || !IsWhitespace(r[|r| - 1])
    ensures AllWhitespace(s[|r|..])
  {
    if s != [] && IsWhitespace(s[|s| - 1]) then
      var p := s[..|s| - 1];
      var r := TrimEnd(p);
      assert forall i :: |r| <= i < |s| ==> s[i] == if i < |p| then p[i] else s[|s| - 1];
      r
    else s
  }

  /**
   * String.prototype.trim: white space removed at both ends, so the result
   * neither starts nor ends with white space (TrimIsSlice says what was cut).
   */
  function Trim(s: JsString): (r: JsString)
    ensures |r| <= |s|
    ensures r == [] || (!IsWhitespace(r[0]) && !IsWhitespace(r[|r| - 1]))
  {
    var t := TrimStart(s);
    var r := TrimEnd(t);
    assert r == [] || r[0] == t[0];
    r
  }

  /**
   * `trim` returns the slice s[k..k + |Trim(s)|] of its input, and everything cut
   * off around it is white space.
   */
  lemma TrimIsSlice(s: JsString) returns (k: nat)
    ensures k + |Trim(s)| <= |s|
    ensures Trim(s) == s[k..k + |Trim(s)|]
    ensures AllWhitespace(s[..k]) && AllWhitespace(s[k + |Trim(s)|..])
  {
    var t := TrimStart(s);
    k := |s| - |t|;
    assert t == s[k..] && AllWhitespace(s[..k]);
    var r := TrimEnd(t);
    assert Trim(s) == r;
    assert r == t[..|r|] && AllWhitespace(t[|r|..]);
    SliceOfSlice(s, k, |r|);
    WhitespaceSuffix(s, k, |r|);
  }

  /** What `trim` removes is a white-space prefix and a white-space suffix. */
  lemma TrimPadding(s: JsString) returns (pre: JsString, post: JsString)
    ensures AllWhitespace(pre) && AllWhitespace(post)
    ensures s == pre + Trim(s) + post
  {
    var k := TrimIsSlice(s);
    var t := Trim(s);
    var e := k + |t|;
    pre, post := s[..k], s[e..];
    SplitAround(s, k, e, t);
  }

  lemma SplitAround(s: JsString, k: nat, e: nat, t: JsString)
    requires k <= e <= |s| && t == s[k..e]
    ensures s == s[..k] + t + s[e..]
  {
    assert s == s[..k] + s[k..];
    assert s[k..] == s[k..e] + s[e..];
  }

  lemma SliceOfSlice(s: JsString, k: nat, n: nat)
    requires k + n <= |s| && TrimEnd(s[k..]) == s[k..][..n]
    ensures TrimEnd(s[k..]) == s[k..k + n]
  {
    assert s[k..][..n] == s[k..k + n];
  }

  lemma WhitespaceSuffix(s: JsString, k: nat, n: nat)
    requires k + n <= |s| && AllWhitespace(s[k..][n..])
    ensures AllWhitespace(s[k + n..])
  {
    assert s[k..][n..] == s[k + n..];
  }

  /** A string that is all white space trims to the empty string. */
  lemma {:induction false} TrimStartAllWhitespace(s: JsString)
    requires AllWhitespace(s)
    ensures TrimStart(s) == []
  {
    if s != [] {
      TrimStartAllWhitespace(s[1..]);
    }
  }

  /** White space around a string does not change what `trim` returns. */
  lemma TrimIgnoresPadding(pre: JsString, s: JsString, post: JsString)
    requires AllWhitespace(pre) && AllWhitespace(post)
    ensures Trim(pre + s + post) == Trim(s)
  {
    assert pre + s + post == pre + (s + post);
    TrimStartPadding(pre, s + post);
    TrimStartPrefix(s, post);
    if TrimStart(s) == [] {
      TrimStartAllWhitespace(post);
    } else {
      TrimEndPadding(TrimStart(s), post);
    }
  }

  lemma {:induction false} TrimStartPadding(pre: JsString, s: JsString)
    requires AllWhitespace(pre)
    ensures TrimStart(pre + s) == TrimStart(s)
  {
    if pre != [] {
      assert (pre + s)[0] == pre[0];
      assert IsWhitespace(pre[0]);
      assert (pre + s)[1..] == pre[1..] + s;
      assert AllWhitespace(pre[1..]) by {
        forall i | 0 <= i < |pre| - 1 ensures IsWhitespace(pre[1..][i]) {
          assert pre[1..][i] == pre[i + 1];
        }
      }
      TrimStartPadding(pre[1..], s);
    } else {
      assert pre + s == s;
    }
  }

  lemma {:induction false} TrimEndPadding(s: JsString, post: JsString)
    requires AllWhitespace(post)
    ensures TrimEnd(s + post) == TrimEnd(s)
  {
    if post != [] {
      assert (s + post)[..|s + post| - 1] == s + post[..|post| - 1];
      TrimEndPadding(s, post[..|post| - 1]);
    } else {
      assert s + post == s;
    }
  }

  lemma {:induction false} TrimEndAllWhitespace(s: JsString)
    requires AllWhitespace(s)
    ensures TrimEnd(s) == []
  {
    if s != [] {
      TrimEndAllWhitespace(s[..|s| - 1]);
    }
  }

  /** Trimming the front of `s + post` either stops inside `s` or eats all of `s`. */
  lemma {:induction false} TrimStartPrefix(s: JsString, post: JsString)
    ensures TrimStart(s) != [] ==> TrimStart(s + post) == TrimStart(s) + post
    ensures TrimStart(s) == [] ==> TrimStart(s + post) == TrimStart(post)
  {
    if s == [] {
      assert s + post == post;
    } else if IsWhitespace(s[0]) {
      assert (s + post)[1..] == s[1..] + post;
      TrimStartPrefix(s[1..], post);
    }
  }

  /** `trim` is idempotent. */
  lemma TrimIdempotent(s: JsString)
    ensures Trim(Trim(s)) == Trim(s)
  {
    var r := Trim(s);
    if r != [] {
      assert TrimStart(r) == r;
    }
  }

  /** ASCII upper case to lower case; every other code unit maps to itself. */
  function LowerUnit(c: CodeUnit): (d: CodeUnit)
    ensures !(0x41 <= d <= 0x5A)
    ensures IsWhitespace(d) <==> IsWhitespace(c)
  {
    if 0x41 <= c <= 0x5A then c + 0x20 else c
  }

  /** String.prototype.toLowerCase, restricted to the ASCII letters. */
  function ToLower(s: JsString): (r: JsString)
    ensures |r| == |s|
    ensures forall i :: 0 <= i < |s| ==> r[i] == LowerUnit(s[i])
  {
    if s == [] then [] else [LowerUnit(s[0])] + ToLower(s[1..])
  }

  /** Lower-casing twice is lower-casing once. */
  lemma ToLowerIdempotent(s: JsString)
    ensures ToLower(ToLower(s)) == ToLower(s)
  {
    var l := ToLower(s);
    var ll := ToLower(l);
    assert |ll| == |l|;
    forall i | 0 <= i < |l| ensures ll[i] == l[i] {
      assert ll[i] == LowerUnit(l[i]);
    }
  }

  lemma ToLowerPrefix(s: JsString, n: nat)
    requires n <= |s|
    ensures ToLower(s)[..n] == ToLower(s[..n])
  {
    var l, p := ToLower(s)[..n], ToLower(s[..n]);
    forall i | 0 <= i < n ensures l[i] == p[i] {
      assert p[i] == LowerUnit(s[..n][i]);
    }
  }

  /** Lower-casing leaves white space where it was, so it commutes with `trim`. */
  lemma {:induction false} ToLowerTrim(s: JsString)
    ensures Trim(ToLower(s)) == ToLower(Trim(s))
  {
    ToLowerTrimStart(s);
    ToLowerTrimEnd(TrimStart(s));
  }

  lemma {:induction false} ToLowerTrimStart(s: JsString)
    ensures TrimStart(ToLower(s)) == ToLower(TrimStart(s))
  {
    if s != [] {
      var l := ToLower(s);
      assert l[0] == LowerUnit(s[0]);
      assert l[1..] == ToLower(s[1..]);
      if IsWhitespace(s[0]) {
        assert TrimStart(l) == TrimStart(l[1..]);
        ToLowerTrimStart(s[1..]);
      } else {
        assert TrimStart(l) == l;
      }
    }
  }

  lemma {:induction false} ToLowerTrimEnd(s: JsString)
    ensures TrimEnd(ToLower(s)) == ToLower(TrimEnd(s))
  {
    if s != [] {
      var n := |s| - 1;
      var l := ToLower(s);
      assert |l| - 1 == n && l[n] == LowerUnit(s[n]);
      assert IsWhitespace(l[n]) == IsWhitespace(s[n]);
      ToLowerPrefix(s, n);
      if IsWhitespace(s[n]) {
        assert TrimEnd(s) == TrimEnd(s[..n]);
        assert TrimEnd(l) == TrimEnd(l[..n]);
        ToLowerTrimEnd(s[..n]);
      } else {
        assert TrimEnd(s) == s;
        assert TrimEnd(l) == l;
      }
    }
  }

  /** `email.trim().toLowerCase()`, the canonical form of an e-mail address. */
  function Normalize(s: JsString): (r: JsString)
    ensures |r| <= |s|
    ensures NoWhitespace(s) ==> r == ToLower(s)
  {
    TrimNoWhitespaceIfClean(s);
    ToLower(Trim(s))
  }

  /** A string without white space is its own trim. */
  lemma TrimNoWhitespaceIfClean(s: JsString)
    ensures NoWhitespace(s) ==> Trim(s) == s
  {
  }

  /** Normalising twice is normalising once. */
  lemma NormalizeIdempotent(s: JsString)
    ensures Normalize(Normalize(s)) == Normalize(s)
  {
    var l := ToLower(Trim(s));
    ToLowerTrim(Trim(s));
    TrimIdempotent(s);
    assert Trim(l) == l;
    ToLowerIdempotent(Trim(s));
  }

  /** Surrounding white space and ASCII letter case do not change the canonical form. */
  lemma NormalizeIgnoresPaddingAndCase(pre: JsString, s: JsString, post: JsString, t: JsString)
    requires AllWhitespace(pre) && AllWhitespace(post)
    requires ToLower(t) == ToLower(s)
    ensures Normalize(pre + t + post) == Normalize(s)
  {
    TrimIgnoresPadding(pre, t, post);
    ToLowerTrim(t);
    ToLowerTrim(s);
  }
}
