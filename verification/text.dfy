/**
 * Whitespace removal at both ends of a line, as the log parser applies it to
 * every line before matching. Whitespace is the character set Python's
 * `str.isspace` and `str.strip()` use.
 */
module Text {

  predicate IsSpace(c: char) {
    var n := c as int;
    || 0x09 <= n <= 0x0D
    || 0x1C <= n <= 0x20
    || n == 0x85 || n == 0xA0 || n == 0x1680
    || 0x2000 <= n <= 0x200A
    || n == 0x2028 || n == 0x2029 || n == 0x202F || n == 0x205F || n == 0x3000
  }

  predicate AllSpace(s: string) {
    forall c :: c in s ==> IsSpace(c)
  }

  /** Neither end of `s` is whitespace (vacuously so for the empty string). */
  predicate Trimmed(s: string) {
    s == [] || (!IsSpace(s[0]) && !IsSpace(s[|s| - 1]))
  }

  /** Drops the leading whitespace. */
  function StripLeft(s: string): string {
    if s == [] || !IsSpace(s[0]) then s else StripLeft(s[1..])
  }

  /** Drops the trailing whitespace. */
  function StripRight(s: string): string {
    if s == [] || !IsSpace(s[|s| - 1]) then s else StripRight(s[..|s| - 1])
  }

  /** What strip-left leaves is a suffix that starts with a non-space, after only whitespace. */
  lemma {:induction false} StripLeftShape(s: string)
    ensures var r := StripLeft(s);
      |r| <= |s| && r == s[|s| - |r|..] && AllSpace(s[..|s| - |r|]) && (r != [] ==> !IsSpace(r[0]))
  {
    if s != [] && IsSpace(s[0]) {
      StripLeftShape(s[1..]);
      var r := StripLeft(s[1..]);
      assert s[..|s| - |r|] == [s[0]] + s[1..][..|s[1..]| - |r|];
    }
  }

  /** What strip-right leaves is a prefix that ends with a non-space, before only whitespace. */
  lemma {:induction false} StripRightShape(s: string)
    ensures var r := StripRight(s);
      |r| <= |s| && r == s[..|r|] && AllSpace(s[|r|..]) && (r != [] ==> !IsSpace(r[|r| - 1]))
  {
    if s != [] && IsSpace(s[|s| - 1]) {
      var t := s[..|s| - 1];
      StripRightShape(t);
      var r := StripRight(t);
      assert s[|r|..] == t[|r|..] + [s[|s| - 1]];
    }
  }

  /** `r` occurs in `s` at position `i`, with only whitespace before and after it. */
  predicate Surrounds(s: string, r: string, i: int) {
    0 <= i <= |s| - |r| && s[i..i + |r|] == r && AllSpace(s[..i]) && AllSpace(s[i + |r|..])
  }

  /**
   * Drops the whitespace at both ends: the result is a trimmed infix of `s`
   * whose surroundings are all whitespace; it is empty exactly when `s` is
   * all whitespace.
   */
  function Strip(s: string): (r: string)
    ensures Trimmed(r)
    ensures r == [] <==> AllSpace(s)
    ensures exists i :: Surrounds(s, r, i)
  {
    var l := StripLeft(s);
    var r := StripRight(l);
    StripLeftShape(s);
    StripRightShape(l);
    StripInfix(s, l, r);
    r
  }

  lemma StripInfix(s: string, l: string, r: string)
    requires |l| <= |s| && l == s[|s| - |l|..] && AllSpace(s[..|s| - |l|]) && (l != [] ==> !IsSpace(l[0]))
    requires |r| <= |l| && r == l[..|r|] && AllSpace(l[|r|..]) && (r != [] ==> !IsSpace(r[|r| - 1]))
    ensures Trimmed(r)
    ensures r == [] <==> AllSpace(s)
    ensures Surrounds(s, r, |s| - |l|)
  {
    var i := |s| - |l|;
    assert s == s[..i] + l;
    assert l == r + l[|r|..];
    assert s[i..i + |r|] == r;
    assert s[i + |r|..] == l[|r|..];
    if r != [] {
      assert s[i] == r[0] == l[0] && s[i] in s;
    }
  }

  /** Leading whitespace is what strip-left removes. */
  lemma {:induction false} StripLeftSpace(p: string, x: string)
    requires AllSpace(p)
    ensures StripLeft(p + x) == StripLeft(x)
  {
    if p == [] {
      assert p + x == x;
    } else {
      assert p[0] in p && (p + x)[0] == p[0];
      assert (p + x)[1..] == p[1..] + x;
      StripLeftSpace(p[1..], x);
    }
  }

  /** Trailing whitespace is what strip-right removes. */
  lemma {:induction false} StripRightSpace(x: string, q: string)
    requires AllSpace(q)
    ensures StripRight(x + q) == StripRight(x)
  {
    if q == [] {
      assert x + q == x;
    } else {
      assert q[|q| - 1] in q && (x + q)[|x + q| - 1] == q[|q| - 1];
      assert (x + q)[..|x + q| - 1] == x + q[..|q| - 1];
      StripRightSpace(x, q[..|q| - 1]);
    }
  }

  /** Whitespace around a trimmed string is exactly what strip removes. */
  lemma StripUnique(p: string, m: string, q: string)
    requires AllSpace(p) && AllSpace(q) && Trimmed(m)
    ensures Strip(p + m + q) == m
  {
    assert p + m + q == p + (m + q);
    StripLeftSpace(p, m + q);
    if m == [] {
      assert m + q == q + [];
      StripLeftSpace(q, []);
    } else {
      StripRightSpace(m, q);
    }
  }

  /** Stripping a stripped string changes nothing. */
  lemma StripIdempotent(s: string)
    ensures Strip(Strip(s)) == Strip(s)
  {
    StripUnique([], Strip(s), []);
    assert [] + Strip(s) + [] == Strip(s);
  }

  /** Text after a non-space survives strip-left unchanged. */
  lemma {:induction false} StripLeftAppend(s: string, q: string)
    requires StripLeft(s) != []
    ensures StripLeft(s + q) == StripLeft(s) + q
  {
    assert s != [] && (s + q)[0] == s[0];
    if IsSpace(s[0]) {
      assert StripLeft(s) == StripLeft(s[1..]);
      assert (s + q)[1..] == s[1..] + q;
      StripLeftAppend(s[1..], q);
      assert StripLeft(s + q) == StripLeft((s + q)[1..]);
    } else {
      assert StripLeft(s + q) == s + q;
    }
  }

  /** Extra whitespace around a line does not change what strip leaves. */
  lemma StripPadded(p: string, s: string, q: string)
    requires AllSpace(p) && AllSpace(q)
    ensures Strip(p + s + q) == Strip(s)
  {
    assert p + s + q == p + (s + q);
    StripLeftSpace(p, s + q);
    if StripLeft(s) == [] {
      StripLeftShape(s);
      assert s == s[..|s| - |StripLeft(s)|];
      StripLeftSpace(s, q);
      assert q == q + [];
      StripLeftSpace(q, []);
    } else {
      StripLeftAppend(s, q);
      StripRightSpace(StripLeft(s), q);
    }
  }
}
