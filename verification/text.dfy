/**
 * The Python string primitives the booking dialogue relies on: `str.lower()`,
 * `str.strip()` and the substring test `needle in haystack`.
 */
module Text {

  import opened Wrappers

  /** Every character of `s` satisfies `p`. */
  predicate All(s: string, p: char -> bool) {
    forall k :: 0 <= k < |s| ==> p(s[k])
  }

  /** Python's `str.isspace()` for one character (the ASCII and Unicode white space). */
  predicate IsSpace(c: char) {
    || ('\t' <= c <= '\r')
    || ('\U{1C}' <= c <= ' ')
    || c == '\U{85}' || c == '\U{A0}' || c == '\U{1680}'
    || ('\U{2000}' <= c <= '\U{200A}')
    || c == '\U{2028}' || c == '\U{2029}' || c == '\U{202F}' || c == '\U{205F}' || c == '\U{3000}'
  }

  predicate IsUpperAscii(c: char) {
    'A' <= c <= 'Z'
  }

  /**
   * Python's `str.lower()` on one character, as far as it can matter for matching
   * against ASCII text: ASCII capitals become small letters, KELVIN SIGN becomes `k`
   * and LATIN CAPITAL LETTER I WITH DOT ABOVE becomes `i` followed by a combining dot.
   * Every other character is kept (Python maps it to non-ASCII characters only).
   */
  function LowerChar(c: char): string {
    if IsUpperAscii(c) then [(c as int + 32) as char]
    else if c == '\U{212A}' then "k"
    else if c == '\U{130}' then "i\U{307}"
    else [c]
  }

  function Lower(s: string): string {
    if s == [] then [] else LowerChar(s[0]) + Lower(s[1..])
  }

  /** Lowering leaves no ASCII capital behind and never shortens the text. */
  lemma {:induction false} LowerLeavesNoCapitals(s: string)
    ensures forall k :: 0 <= k < |Lower(s)| ==> !IsUpperAscii(Lower(s)[k])
    ensures |s| <= |Lower(s)|
    decreases |s|
  {
    if s != [] {
      LowerLeavesNoCapitals(s[1..]);
      var h := LowerChar(s[0]);
      assert Lower(s) == h + Lower(s[1..]);
      forall k | |h| <= k < |Lower(s)|
        ensures Lower(s)[k] == Lower(s[1..])[k - |h|]
      {
      }
    }
  }

  lemma {:induction false} LowerAppend(a: string, b: string)
    ensures Lower(a + b) == Lower(a) + Lower(b)
    decreases |a|
  {
    if a == [] {
      assert a + b == b;
    } else {
      assert (a + b)[1..] == a[1..] + b;
      LowerAppend(a[1..], b);
    }
  }

  /** Text whose characters all lower to themselves is already lower case. */
  lemma {:induction false} LowerKeeps(s: string)
    requires forall c :: c in s ==> LowerChar(c) == [c]
    ensures Lower(s) == s
    decreases |s|
  {
    if s != [] {
      assert s[0] in s;
      assert forall c :: c in s[1..] ==> c in s;
      LowerKeeps(s[1..]);
    }
  }

  /** Lowering twice is lowering once. */
  lemma {:induction false} LowerIdempotent(s: string)
    ensures Lower(Lower(s)) == Lower(s)
    decreases |s|
  {
    if s != [] {
      var c := s[0];
      LowerAppend(LowerChar(c), Lower(s[1..]));
      LowerIdempotent(s[1..]);
      if IsUpperAscii(c) {
        assert Lower(LowerChar(c)) == LowerChar(c) + Lower([]);
      } else if c == '\U{212A}' {
        assert Lower("k") == "k" + Lower([]);
      } else if c == '\U{130}' {
        assert "i\U{307}"[1..] == "\U{307}";
        assert Lower("\U{307}") == "\U{307}" + Lower([]);
      } else {
        assert Lower([c]) == [c] + Lower([]);
      }
    }
  }

  predicate IsSmallAscii(c: char) {
    'a' <= c <= 'z'
  }

  /** `c` lower-cases to the small letter `w`: it is `w`, its capital, or KELVIN SIGN for `k`. */
  predicate LowersTo(c: char, w: char) {
    c == w || c as int + 32 == w as int || (w == 'k' && c == '\U{212A}')
  }

  /** `u` spells the small-letter word `w` letter for letter, ignoring case. */
  ghost predicate SameLetters(u: string, w: string) {
    |u| == |w| && forall j :: 0 <= j < |u| ==> LowersTo(u[j], w[j])
  }

  /**
   * A text lower-cases to a word of small ASCII letters exactly when it spells
   * that word letter for letter in any case: nothing may be added, dropped or
   * padded, and a dotted capital I never fits, since it lowers to two characters.
   */
  lemma {:induction false} LowerMatchesWord(u: string, w: string)
    requires forall j :: 0 <= j < |w| ==> IsSmallAscii(w[j])
    ensures Lower(u) == w <==> SameLetters(u, w)
    decreases |u|
  {
    if u != [] {
      var c := u[0];
      assert Lower(u) == LowerChar(c) + Lower(u[1..]);
      if c == '\U{130}' {
        if |w| > 0 {
          assert !LowersTo(c, w[0]);
        }
        assert |Lower(u)| >= 2 && Lower(u)[1] == '\U{307}';
        if |w| >= 2 {
          assert Lower(u)[1] != w[1];
        }
      } else if w == [] {
        assert |Lower(u)| >= 1;
      } else {
        LowerMatchesWord(u[1..], w[1..]);
        assert LowerChar(c)[0] == w[0] <==> LowersTo(c, w[0]);
        if SameLetters(u, w) {
          forall j | 0 <= j < |u[1..]|
            ensures LowersTo(u[1..][j], w[1..][j])
          {
            assert u[1..][j] == u[j + 1];
          }
          assert Lower(u) == [w[0]] + w[1..];
        }
        if Lower(u) == w {
          assert Lower(u[1..]) == w[1..];
          forall j | 0 <= j < |u|
            ensures LowersTo(u[j], w[j])
          {
            if j > 0 {
              assert u[j] == u[1..][j - 1];
            }
          }
        }
      }
    }
  }

  /** The length of the longest prefix of `s` whose characters all satisfy `p`. */
  function PrefixSpan(s: string, p: char -> bool): (n: nat)
    ensures n <= |s| && All(s[..n], p)
    ensures n < |s| ==> !p(s[n])
  {
    if s == [] || !p(s[0]) then 0 else 1 + PrefixSpan(s[1..], p)
  }

  /** A run of `p` characters ended by a character that is not `p` is the span. */
  lemma PrefixSpanExact(s: string, p: char -> bool, n: nat)
    requires n < |s| && All(s[..n], p) && !p(s[n])
    ensures PrefixSpan(s, p) == n
  {
    var m := PrefixSpan(s, p);
    forall k | 0 <= k < n
      ensures p(s[k])
    {
      assert s[..n][k] == s[k];
    }
    forall k | 0 <= k < m
      ensures p(s[k])
    {
      assert s[..m][k] == s[k];
    }
  }

  /** The length of the longest suffix of `s` whose characters all satisfy `p`. */
  function SuffixSpan(s: string, p: char -> bool): (n: nat)
    ensures n <= |s| && All(s[|s| - n..], p)
    ensures n < |s| ==> !p(s[|s| - n - 1])
  {
    if s == [] || !p(s[|s| - 1]) then 0 else 1 + SuffixSpan(s[..|s| - 1], p)
  }

  /** The position of the first `c` in `s`, if any. */
  function FirstIndex(s: string, c: char): (r: Option<nat>)
    ensures r.Some? ==> r.value < |s| && s[r.value] == c && c !in s[..r.value]
    ensures r.None? ==> c !in s
  {
    var n := PrefixSpan(s, x => x != c);
    if n == |s| then
      assert s[..n] == s;
      None
    else
      Some(n)
  }

  /** The first `c` is where `c` occurs with no `c` before it. */
  lemma FirstIndexExact(s: string, c: char, n: nat)
    requires n < |s| && s[n] == c && c !in s[..n]
    ensures FirstIndex(s, c) == Some(n)
  {
    forall k | 0 <= k < n
      ensures s[k] != c
    {
      assert s[..n][k] == s[k];
    }
    PrefixSpanExact(s, x => x != c, n);
  }

  /** The position of the last `c` in `s`, if any. */
  function LastIndex(s: string, c: char): (r: Option<nat>)
    ensures r.Some? ==> r.value < |s| && s[r.value] == c && c !in s[r.value + 1..]
    ensures r.None? ==> c !in s
  {
    var n := SuffixSpan(s, x => x != c);
    if n == |s| then
      assert s[|s| - n..] == s;
      None
    else
      Some(|s| - n - 1)
  }

  /** Python's `str.strip()` with no argument. */
  function Strip(s: string): (r: string)
    ensures r == [] || (!IsSpace(r[0]) && !IsSpace(r[|r| - 1]))
    ensures exists i :: Framed(s, r, i)
  {
    var i := PrefixSpan(s, IsSpace);
    var t := s[i..];
    var r := t[..|t| - SuffixSpan(t, IsSpace)];
    assert Framed(s, r, i) by {
      assert s[i..i + |r|] == r;
      assert s[i + |r|..] == t[|t| - SuffixSpan(t, IsSpace)..];
    }
    r
  }

  /** `s` is `r` surrounded by white space, with `r` starting at index `i`. */
  ghost predicate Framed(s: string, r: string, i: int) {
    && OccursAt(r, s, i)
    && All(s[..i], IsSpace)
    && All(s[i + |r|..], IsSpace)
  }

  /** `w` appears in `t` starting at index `i`. */
  ghost predicate OccursAt(w: string, t: string, i: int) {
    0 <= i && i + |w| <= |t| && t[i..i + |w|] == w
  }

  /** `w` is a substring of `t`: the meaning of Python's `w in t` on strings. */
  ghost predicate Occurs(w: string, t: string) {
    exists i :: OccursAt(w, t, i)
  }

  /** Python's `w in t`, computed by trying every start position from the left. */
  function Contains(t: string, w: string): (r: bool)
    ensures r <==> Occurs(w, t)
    decreases |t|
  {
    if |t| < |w| then
      assert forall i :: !OccursAt(w, t, i);
      false
    else if t[..|w|] == w then
      assert OccursAt(w, t, 0);
      true
    else
      OccursShift(t, w);
      Contains(t[1..], w)
  }

  lemma OccursShift(t: string, w: string)
    requires |w| <= |t| && t[..|w|] != w
    ensures Occurs(w, t) <==> Occurs(w, t[1..])
  {
    if Occurs(w, t) {
      var i :| OccursAt(w, t, i);
      assert i != 0;
      assert t[1..][i - 1..i - 1 + |w|] == t[i..i + |w|];
      assert OccursAt(w, t[1..], i - 1);
    }
    if Occurs(w, t[1..]) {
      var i :| OccursAt(w, t[1..], i);
      assert t[1..][i..i + |w|] == t[i + 1..i + 1 + |w|];
      assert OccursAt(w, t, i + 1);
    }
  }

  /** A substring of a part is a substring of the whole. */
  lemma OccursInAppend(w: string, a: string, b: string)
    ensures Occurs(w, a) ==> Occurs(w, a + b)
    ensures Occurs(w, b) ==> Occurs(w, a + b)
  {
    if Occurs(w, a) {
      var i :| OccursAt(w, a, i);
      assert (a + b)[i..i + |w|] == a[i..i + |w|];
      assert OccursAt(w, a + b, i);
    }
    if Occurs(w, b) {
      var i :| OccursAt(w, b, i);
      assert (a + b)[|a| + i..|a| + i + |w|] == b[i..i + |w|];
      assert OccursAt(w, a + b, |a| + i);
    }
  }

  /**
   * Stripping white space cannot create or destroy an occurrence of a word that
   * neither starts nor ends with white space.
   */
  lemma OccursStrip(w: string, t: string)
    requires |w| > 0 && !IsSpace(w[0]) && !IsSpace(w[|w| - 1])
    ensures Occurs(w, Strip(t)) <==> Occurs(w, t)
  {
    var r := Strip(t);
    var i :| Framed(t, r, i);
    if Occurs(w, r) {
      var k :| OccursAt(w, r, k);
      OccursWidened(w, t, r, i, k);
    }
    if Occurs(w, t) {
      var k :| OccursAt(w, t, k);
      OccursNarrowed(w, t, r, i, k);
    }
  }

  lemma OccursWidened(w: string, t: string, r: string, i: int, k: int)
    requires Framed(t, r, i) && OccursAt(w, r, k)
    ensures OccursAt(w, t, i + k)
  {
    assert t[i..i + |r|] == r;
    forall j | 0 <= j < |w|
      ensures t[i + k..i + k + |w|][j] == w[j]
    {
      assert t[i + k + j] == t[i..i + |r|][k + j] == r[k + j];
      assert r[k + j] == r[k..k + |w|][j];
    }
  }

  lemma OccursNarrowed(w: string, t: string, r: string, i: int, k: int)
    requires |w| > 0 && !IsSpace(w[0]) && !IsSpace(w[|w| - 1])
    requires Framed(t, r, i) && OccursAt(w, t, k)
    ensures OccursAt(w, r, k - i)
  {
    assert t[k] == t[k..k + |w|][0] == w[0];
    forall j | 0 <= j < i
      ensures IsSpace(t[j])
    {
      assert t[..i][j] == t[j];
    }
    var e := k + |w| - 1;
    assert t[e] == t[k..k + |w|][|w| - 1] == w[|w| - 1];
    forall j | i + |r| <= j < |t|
      ensures IsSpace(t[j])
    {
      assert t[i + |r|..][j - (i + |r|)] == t[j];
    }
    assert t[i..i + |r|] == r;
    forall j | 0 <= j < |w|
      ensures r[k - i..k - i + |w|][j] == w[j]
    {
      assert r[k - i + j] == t[i..i + |r|][k - i + j] == t[k + j];
      assert t[k + j] == t[k..k + |w|][j];
    }
  }

  /** A word occurs in any text that has it in the middle. */
  lemma OccursBetween(a: string, w: string, b: string)
    ensures OccursAt(w, a + w + b, |a|) && Occurs(w, a + w + b)
  {
    assert (a + w + b)[|a|..|a| + |w|] == w;
    assert OccursAt(w, a + w + b, |a|);
  }
}
