/**
 * Room-code normalisation (`normalizeCode` in lib/gameStore.ts): a code is
 * trimmed of surrounding whitespace and upper-cased before every lookup, so
 * that codes are insensitive to case and to padding.
 *
 * Whitespace and case are modelled on ASCII: the whitespace characters are
 * space, tab, line feed, vertical tab, form feed and carriage return, and
 * upper-casing maps `a`..`z` to `A`..`Z` and leaves every other character alone.
 */
module Codes {
  import opened Wrappers

  predicate IsSpace(c: char) {
    c == ' ' || c == '\t' || c == '\n' || c == '\r' || c == '\U{000B}' || c == '\U{000C}'
  }

  predicate AllSpace(s: string) {
    forall i :: 0 <= i < |s| ==> IsSpace(s[i])
  }

  predicate IsLower(c: char) {
    'a' <= c <= 'z'
  }

  function UpperChar(c: char): char {
    if IsLower(c) then (c as int - 32) as char else c
  }

  /** ASCII upper-casing, character by character. */
  function Upper(s: string): (r: string)
    ensures |r| == |s|
    ensures forall i :: 0 <= i < |s| ==> r[i] == UpperChar(s[i])
    ensures forall i :: 0 <= i < |r| ==> !IsLower(r[i])
  {
    if s == [] then [] else [UpperChar(s[0])] + Upper(s[1..])
  }

  /** Drops leading whitespace: the result is the suffix of `s` after its whitespace prefix. */
  function TrimStart(s: string): (r: string)
    ensures |r| <= |s| && r == s[|s| - |r|..]
    ensures AllSpace(s[..|s| - |r|])
    ensures r == [] || !IsSpace(r[0])
  {
    if s != [] && IsSpace(s[0]) then TrimStart(s[1..]) else s
  }

  /** Drops trailing whitespace: the result is the prefix of `s` before its whitespace suffix. */
  function TrimEnd(s: string): (r: string)
    ensures |r| <= |s| && r == s[..|r|]
    ensures AllSpace(s[|r|..])
    ensures r == [] || !IsSpace(r[|r| - 1])
  {
    if s != [] && IsSpace(s[|s| - 1]) then TrimEnd(s[..|s| - 1]) else s
  }

  /** `String.prototype.trim` on ASCII whitespace. */
  function Trim(s: string): (r: string)
    ensures |r| <= |s|
    ensures r == [] || (!IsSpace(r[0]) && !IsSpace(r[|r| - 1]))
  {
    TrimEnd(TrimStart(s))
  }

  /**
   * Trimming keeps the middle of the code: the result is the stretch of `s`
   * between a whitespace prefix and a whitespace suffix.
   */
  lemma TrimKeepsMiddle(s: string)
    ensures var r := Trim(s);
      var i := |s| - |TrimStart(s)|;
      && i + |r| <= |s|
      && r == s[i..i + |r|]
      && AllSpace(s[..i])
      && AllSpace(s[i + |r|..])
  {
    var t := TrimStart(s);
    var r := TrimEnd(t);
    assert t[|r|..] == s[|s| - |t| + |r|..];
  }

  /** Whether `s` is already in normal form: no surrounding whitespace, no lower-case letter. */
  predicate IsNormal(s: string) {
    && (s == [] || (!IsSpace(s[0]) && !IsSpace(s[|s| - 1])))
    && forall i :: 0 <= i < |s| ==> !IsLower(s[i])
  }

  /**
   * `normalizeCode(code)`: a missing code reads as the empty string; otherwise
   * the code is trimmed and upper-cased. The result is always in normal form.
   */
  function NormalizeCode(code: Option<string>): (key: string)
    ensures IsNormal(key)
    ensures code.None? ==> key == ""
    ensures |key| <= (if code.Some? then |code.value| else 0)
  {
    var trimmed := Trim(if code.Some? then code.value else "");
    UpperKeepsEnds(trimmed);
    Upper(trimmed)
  }

  /** Upper-casing a string without surrounding whitespace gives one in normal form. */
  lemma UpperKeepsEnds(t: string)
    requires t == [] || (!IsSpace(t[0]) && !IsSpace(t[|t| - 1]))
    ensures IsNormal(Upper(t))
  {
    if t != [] {
      UpperChangesNoSpace(t[0]);
      UpperChangesNoSpace(t[|t| - 1]);
    }
  }

  /** A string in normal form is its own normalisation. */
  lemma NormalIsFixpoint(s: string)
    requires IsNormal(s)
    ensures NormalizeCode(Some(s)) == s
  {
    assert TrimStart(s) == s;
    assert TrimEnd(s) == s;
    assert Upper(s) == s;
  }

  /**
   * Normalising twice is normalising once, so `getRoom` handing an already
   * normalised key to `getValidRoom`, which normalises it again, looks up the
   * same key.
   */
  lemma NormalizeIdempotent(code: Option<string>)
    ensures NormalizeCode(Some(NormalizeCode(code))) == NormalizeCode(code)
  {
    NormalIsFixpoint(NormalizeCode(code));
  }

  lemma {:induction false} TrimStartPadding(p: string, x: string)
    requires AllSpace(p)
    ensures TrimStart(p + x) == TrimStart(x)
  {
    if p == [] {
      assert p + x == x;
    } else {
      assert (p + x)[0] == p[0] && IsSpace(p[0]);
      assert (p + x)[1..] == p[1..] + x;
      TrimStartPadding(p[1..], x);
    }
  }

  lemma {:induction false} TrimEndPadding(x: string, q: string)
    requires AllSpace(q)
    ensures TrimEnd(x + q) == TrimEnd(x)
  {
    if q == [] {
      assert x + q == x;
    } else {
      var y := x + q;
      assert y[|y| - 1] == q[|q| - 1] && IsSpace(q[|q| - 1]);
      assert y[..|y| - 1] == x + q[..|q| - 1];
      TrimEndPadding(x, q[..|q| - 1]);
    }
  }

  lemma {:induction false} TrimPaddingRight(x: string, q: string)
    requires AllSpace(q)
    ensures Trim(x + q) == Trim(x)
  {
    if x == [] {
      assert x + q == q + [];
      TrimStartPadding(q, []);
    } else if IsSpace(x[0]) {
      assert (x + q)[1..] == x[1..] + q;
      TrimPaddingRight(x[1..], q);
    } else {
      TrimEndPadding(x, q);
    }
  }

  /** Surrounding whitespace never changes the trimmed string. */
  lemma TrimPadding(p: string, s: string, q: string)
    requires AllSpace(p) && AllSpace(q)
    ensures Trim(p + s + q) == Trim(s)
  {
    calc {
      Trim(p + s + q);
      { assert p + s + q == p + (s + q); }
      TrimEnd(TrimStart(p + (s + q)));
      { TrimStartPadding(p, s + q); }
      TrimEnd(TrimStart(s + q));
      { TrimPaddingRight(s, q); }
      Trim(s);
    }
  }

  lemma UpperChangesNoSpace(c: char)
    ensures IsSpace(UpperChar(c)) == IsSpace(c)
  {
  }

  lemma {:induction false} UpperTrimStart(s: string)
    ensures Upper(TrimStart(s)) == TrimStart(Upper(s))
  {
    if s != [] {
      UpperChangesNoSpace(s[0]);
      if IsSpace(s[0]) {
        assert Upper(s)[1..] == Upper(s[1..]);
        UpperTrimStart(s[1..]);
      }
    }
  }

  lemma {:induction false} UpperTrimEnd(s: string)
    ensures Upper(TrimEnd(s)) == TrimEnd(Upper(s))
  {
    if s != [] {
      var n := |s| - 1;
      UpperChangesNoSpace(s[n]);
      if IsSpace(s[n]) {
        assert Upper(s)[..n] == Upper(s[..n]);
        UpperTrimEnd(s[..n]);
      }
    }
  }

  /** Trimming and upper-casing commute. */
  lemma UpperTrim(s: string)
    ensures Upper(Trim(s)) == Trim(Upper(s))
  {
    UpperTrimEnd(TrimStart(s));
    UpperTrimStart(s);
  }

  /** A code without whitespace normalises to its upper-cased self. */
  lemma NormalizeNoSpace(s: string)
    requires forall i | 0 <= i < |s| :: !IsSpace(s[i])
    ensures NormalizeCode(Some(s)) == Upper(s)
  {
    assert TrimStart(s) == s;
    assert TrimEnd(s) == s;
  }

  /** Upper-casing twice is upper-casing once. */
  lemma UpperIdempotent(s: string)
    ensures Upper(Upper(s)) == Upper(s)
  {
  }

  /**
   * Codes are case- and whitespace-insensitive: two codes that agree once
   * upper-cased, padded with any whitespace, normalise to the same key.
   */
  lemma NormalizeInsensitive(s: string, t: string, p: string, q: string)
    requires Upper(s) == Upper(t)
    requires AllSpace(p) && AllSpace(q)
    ensures NormalizeCode(Some(p + s + q)) == NormalizeCode(Some(t))
  {
    TrimPadding(p, s, q);
    UpperTrim(s);
    UpperTrim(t);
  }

}
