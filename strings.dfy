/**
 * The handful of Python `str` operations the skill validator relies on,
 * written over `string` (a sequence of Unicode scalar values, so `|s|`
 * agrees with Python's code-point `len`).
 */
module Strings {

  datatype Option<T> = None | Some(value: T)

  /* ---------------------------------------------------------------------
   * Whitespace and str.strip()
   * ------------------------------------------------------------------- */

  /** The characters for which Python's `str.isspace()` holds; `str.strip()`
      with no argument removes exactly these from both ends. */
  predicate IsSpace(c: char) {
    || ('\t' <= c <= '\r')              // \t \n \v \f \r
    || ('\U{1c}' <= c <= '\U{1f}')      // file, group, record, unit separators
    || c == ' '
    || c == '\U{85}' || c == '\U{a0}' || c == '\U{1680}'
    || ('\U{2000}' <= c <= '\U{200a}')
    || c == '\U{2028}' || c == '\U{2029}' || c == '\U{202f}'
    || c == '\U{205f}' || c == '\U{3000}'
  }

  predicate AllSpace(s: string) {
    forall k :: 0 <= k < |s| ==> IsSpace(s[k])
  }

  /** Number of whitespace characters at the front of `s`. */
  function LeadingSpace(s: string): (n: nat)
    ensures n <= |s|
    ensures AllSpace(s[..n])
    ensures n < |s| ==> !IsSpace(s[n])
  {
    if s == [] || !IsSpace(s[0]) then 0
    else
      var m := LeadingSpace(s[1..]);
      LeadingStep(s, m);
      m + 1
  }

  /** One more whitespace character at the front extends the leading run. */
  lemma LeadingStep(s: string, m: nat)
    requires s != [] && IsSpace(s[0]) && m <= |s| - 1
    requires AllSpace(s[1..][..m])
    requires m < |s| - 1 ==> !IsSpace(s[1..][m])
    ensures AllSpace(s[..m + 1])
    ensures m + 1 < |s| ==> !IsSpace(s[m + 1])
  {
    forall k | 0 <= k < m + 1 ensures IsSpace(s[k]) {
      if k > 0 {
        assert s[k] == s[1..][..m][k - 1];
      }
    }
  }

  /** Number of whitespace characters at the back of `s`. */
  function TrailingSpace(s: string): (n: nat)
    ensures n <= |s|
    ensures AllSpace(s[|s| - n..])
    ensures n < |s| ==> !IsSpace(s[|s| - 1 - n])
  {
    if s == [] || !IsSpace(s[|s| - 1]) then 0
    else
      var m := TrailingSpace(s[..|s| - 1]);
      TrailingStep(s, m);
      m + 1
  }

  /** One more whitespace character at the back extends the trailing run. */
  lemma TrailingStep(s: string, m: nat)
    requires s != [] && IsSpace(s[|s| - 1]) && m <= |s| - 1
    requires AllSpace(s[..|s| - 1][|s| - 1 - m..])
    requires m < |s| - 1 ==> !IsSpace(s[..|s| - 1][|s| - 2 - m])
    ensures AllSpace(s[|s| - (m + 1)..])
    ensures m + 1 < |s| ==> !IsSpace(s[|s| - 1 - (m + 1)])
  {
    var front := s[..|s| - 1];
    forall k | |s| - (m + 1) <= k < |s| ensures IsSpace(s[k]) {
      if k < |s| - 1 {
        assert s[k] == front[|s| - 1 - m..][k - (|s| - 1 - m)];
      }
    }
    if m < |s| - 1 {
      assert s[|s| - 2 - m] == front[|s| - 2 - m];
    }
  }

  /** Python's `s.strip()`. */
  function Strip(s: string): (r: string)
    ensures |r| <= |s|
    ensures r == [] <==> AllSpace(s)
    ensures r != [] ==> !IsSpace(r[0]) && !IsSpace(r[|r| - 1])
  {
    var lead := LeadingSpace(s);
    if lead == |s| then
      assert s[..lead] == s;
      []
    else
      var rest := s[lead..];
      var r := rest[..|rest| - TrailingSpace(rest)];
      assert r[0] == s[lead];
      r
  }

  /** Strip only removes whitespace: what it keeps is a slice of `s` with
      nothing but whitespace on either side. */
  lemma StripSlice(s: string) returns (i: nat)
    ensures i + |Strip(s)| <= |s| && s[i..i + |Strip(s)|] == Strip(s)
    ensures AllSpace(s[..i]) && AllSpace(s[i + |Strip(s)|..])
  {
    var r := Strip(s);
    var lead := LeadingSpace(s);
    if lead == |s| {
      i := 0;
      assert r == [];
      assert s[..lead] == s && s[0..] == s;
    } else {
      var rest := s[lead..];
      var trail := TrailingSpace(rest);
      var n := |rest| - trail;
      i := lead;
      assert r == rest[..n];
      assert s[lead..lead + n] == rest[..n];
      assert AllSpace(s[..lead]);
      assert AllSpace(rest[n..]);
      assert s[lead + n..] == rest[n..];
    }
  }

  lemma {:induction false} LeadingSpaceAppend(a: string, t: string)
    requires AllSpace(a)
    ensures LeadingSpace(a + t) == |a| + LeadingSpace(t)
  {
    if a != [] {
      assert (a + t)[0] == a[0] && (a + t)[1..] == a[1..] + t;
      LeadingSpaceAppend(a[1..], t);
    } else {
      assert a + t == t;
    }
  }

  lemma {:induction false} TrailingSpacePrepend(t: string, b: string)
    requires AllSpace(b)
    ensures TrailingSpace(t + b) == TrailingSpace(t) + |b|
  {
    if b != [] {
      var s := t + b;
      var b' := b[..|b| - 1];
      assert AllSpace(b') by {
        forall k | 0 <= k < |b'| ensures IsSpace(b'[k]) { assert b'[k] == b[k]; }
      }
      assert s[|s| - 1] == b[|b| - 1] && s[..|s| - 1] == t + b';
      TrailingSpacePrepend(t, b');
    } else {
      assert t + b == t;
    }
  }

  /** Strip removes exactly the surrounding whitespace: whatever whitespace
      surrounds a core with non-space ends, the core is what remains. */
  lemma StripSurrounded(a: string, core: string, b: string)
    requires AllSpace(a) && AllSpace(b)
    requires core != [] ==> !IsSpace(core[0]) && !IsSpace(core[|core| - 1])
    ensures Strip(a + core + b) == core
  {
    var s := a + core + b;
    if core == [] {
      assert AllSpace(s) by {
        forall k | 0 <= k < |s| ensures IsSpace(s[k]) {
          if k < |a| { assert s[k] == a[k]; } else { assert s[k] == b[k - |a|]; }
        }
      }
    } else {
      assert s == a + (core + b);
      LeadingSpaceAppend(a, core + b);
      assert LeadingSpace(core + b) == 0 by { assert (core + b)[0] == core[0]; }
      var lead := LeadingSpace(s);
      assert lead == |a| && lead < |s|;
      var rest := s[lead..];
      assert rest == core + b;
      TrailingSpacePrepend(core, b);
      assert TrailingSpace(core) == 0;
      var trail := TrailingSpace(rest);
      assert trail == |b|;
      assert Strip(s) == rest[..|rest| - trail];
      assert rest[..|core|] == core;
    }
  }

  /** Stripping twice is stripping once. */
  lemma StripIdempotent(s: string)
    ensures Strip(Strip(s)) == Strip(s)
  {
    StripSurrounded([], Strip(s), []);
    assert [] + Strip(s) + [] == Strip(s);
  }

  /* ---------------------------------------------------------------------
   * Prefixes and substrings
   * ------------------------------------------------------------------- */

  /** Python's `s.startswith(prefix)`. */
  predicate StartsWith(s: string, prefix: string)
    ensures StartsWith(s, prefix) <==>
      |prefix| <= |s| && forall i :: 0 <= i < |prefix| ==> s[i] == prefix[i]
  {
    |prefix| <= |s| && s[..|prefix|] == prefix
  }

  /** A string starts with whatever it was built from at the front. */
  lemma PrefixOfConcat(p: string, t: string)
    ensures StartsWith(p + t, p)
  {
    assert (p + t)[..|p|] == p;
  }

  /** Python's `s.endswith(suffix)`. */
  predicate EndsWith(s: string, suffix: string)
    ensures EndsWith(s, suffix) <==>
      |suffix| <= |s| && forall i :: 0 <= i < |suffix| ==> s[|s| - |suffix| + i] == suffix[i]
  {
    |suffix| <= |s| && s[|s| - |suffix|..] == suffix
  }

  /** `pat` occurs in `s` starting at index `p`. */
  predicate OccursAt(s: string, pat: string, p: nat) {
    p + |pat| <= |s| && s[p..p + |pat|] == pat
  }

  /** The least index at or after `from` where `pat` occurs in `s`, if any
      (what `s.find(pat, from)` computes). */
  function FindFrom(s: string, pat: string, from: nat): (r: Option<nat>)
    requires from <= |s|
    ensures r.Some? ==> from <= r.value && OccursAt(s, pat, r.value)
    ensures r.Some? ==> forall p :: from <= p < r.value ==> !OccursAt(s, pat, p)
    ensures r.None? ==> forall p :: from <= p ==> !OccursAt(s, pat, p)
    decreases |s| - from
  {
    if OccursAt(s, pat, from) then Some(from)
    else if from == |s| then None
    else FindFrom(s, pat, from + 1)
  }

  /** Python's `pat in s` for strings. */
  predicate Contains(s: string, pat: string)
    ensures Contains(s, pat) <==> exists p :: OccursAt(s, pat, p)
  {
    var found := FindFrom(s, pat, 0);
    assert found.Some? ==> OccursAt(s, pat, found.value);
    found.Some?
  }

  /** A one-character substring test is a membership test. */
  lemma ContainsChar(s: string, c: char)
    ensures Contains(s, [c]) <==> c in s
  {
    if Contains(s, [c]) {
      var p: nat :| OccursAt(s, [c], p);
      assert |[c]| == 1 && s[p..p + 1][0] == s[p];
    }
    if c in s {
      var p :| 0 <= p < |s| && s[p] == c;
      assert OccursAt(s, [c], p);
    }
  }

  /** A two-character substring test looks for two adjacent characters. */
  lemma ContainsPair(s: string, a: char, b: char)
    ensures Contains(s, [a, b]) <==> exists i :: 0 <= i < |s| - 1 && s[i] == a && s[i + 1] == b
  {
    if Contains(s, [a, b]) {
      var p: nat :| OccursAt(s, [a, b], p);
      assert |[a, b]| == 2 && p + 2 <= |s|;
      assert s[p..p + 2][0] == s[p] && s[p..p + 2][1] == s[p + 1];
    }
    if exists i :: 0 <= i < |s| - 1 && s[i] == a && s[i + 1] == b {
      var i :| 0 <= i < |s| - 1 && s[i] == a && s[i + 1] == b;
      assert s[i..i + 2] == [a, b];
      assert OccursAt(s, [a, b], i);
    }
  }

  /* ---------------------------------------------------------------------
   * Python's ordering on str, and sorted(...) of a collection of str
   * ------------------------------------------------------------------- */

  /** `a < b` on Python strings: lexicographic by code point, a proper
      prefix being smaller. */
  predicate Less(a: string, b: string) {
    if a == [] then b != []
    else if b == [] then false
    else if a[0] != b[0] then a[0] < b[0]
    else Less(a[1..], b[1..])
  }

  lemma {:induction false} LessIrreflexive(a: string)
    ensures !Less(a, a)
  {
    if a != [] { LessIrreflexive(a[1..]); }
  }

  lemma {:induction false} LessTransitive(a: string, b: string, c: string)
    requires Less(a, b) && Less(b, c)
    ensures Less(a, c)
  {
    if a != [] && b != [] && c != [] && a[0] == b[0] && b[0] == c[0] {
      LessTransitive(a[1..], b[1..], c[1..]);
    }
  }

  lemma {:induction false} LessTotal(a: string, b: string)
    ensures a == b || Less(a, b) || Less(b, a)
  {
    if a != [] && b != [] && a[0] == b[0] {
      LessTotal(a[1..], b[1..]);
      if a[1..] == b[1..] {
        assert a == [a[0]] + a[1..] && b == [b[0]] + b[1..];
      }
    }
  }

  lemma {:induction false} LessAsymmetric(a: string, b: string)
    requires Less(a, b)
    ensures !Less(b, a)
  {
    if a != [] && b != [] && a[0] == b[0] {
      LessAsymmetric(a[1..], b[1..]);
    }
  }

  predicate StrictlySorted(s: seq<string>) {
    forall i, j :: 0 <= i < j < |s| ==> Less(s[i], s[j])
  }

  /** Inserts `x` into a strictly sorted sequence, keeping it strictly sorted
      and free of duplicates. */
  function Insert(x: string, s: seq<string>): (r: seq<string>)
    requires StrictlySorted(s)
    ensures StrictlySorted(r)
    ensures forall y :: y in r <==> y == x || y in s
  {
    if s == [] then [x]
    else if x == s[0] then s
    else if Less(x, s[0]) then
      assert forall j :: 0 <= j < |s| ==> Less(x, s[j]) by {
        forall j | 0 < j < |s| ensures Less(x, s[j]) { LessTransitive(x, s[0], s[j]); }
      }
      [x] + s
    else
      LessTotal(x, s[0]);
      var rest := Insert(x, s[1..]);
      assert forall y :: y in rest ==> Less(s[0], y) by {
        forall y | y in rest ensures Less(s[0], y) {
          if y != x {
            var j :| 0 <= j < |s[1..]| && s[1..][j] == y;
            assert s[j + 1] == y;
          }
        }
      }
      [s[0]] + rest
  }

  /** `sorted(set(xs))`: the distinct elements of `xs` in increasing order. */
  function SortedSet(xs: seq<string>): (r: seq<string>)
    ensures StrictlySorted(r)
    ensures forall y :: y in r <==> y in xs
  {
    if xs == [] then []
    else
      var r := Insert(xs[|xs| - 1], SortedSet(xs[..|xs| - 1]));
      assert forall y :: y in xs <==> y in xs[..|xs| - 1] || y == xs[|xs| - 1] by {
        assert xs == xs[..|xs| - 1] + [xs[|xs| - 1]];
      }
      r
  }

  lemma NonEmptyHasElement(s: seq<string>)
    ensures s != [] <==> exists y :: y in s
  {
    if s != [] { assert s[0] in s; }
  }

  /** A strictly sorted sequence is determined by its elements, so
      `SortedSet` is the one and only sorted listing of a collection. */
  lemma {:induction false} SortedListingUnique(a: seq<string>, b: seq<string>)
    requires StrictlySorted(a) && StrictlySorted(b)
    requires forall y :: y in a <==> y in b
    ensures a == b
  {
    if a != [] && b != [] {
      // both heads are the least element of the common collection
      assert a[0] in b && b[0] in a;
      if a[0] != b[0] {
        var ia :| 0 <= ia < |b| && b[ia] == a[0];
        var ib :| 0 <= ib < |a| && a[ib] == b[0];
        assert ia > 0 && ib > 0;
        assert Less(b[0], a[0]) && Less(a[0], b[0]);
        LessAsymmetric(b[0], a[0]);
      }
      forall y ensures y in a[1..] <==> y in b[1..] {
        assert a == [a[0]] + a[1..] && b == [b[0]] + b[1..];
        if y in a[1..] {
          var k :| 0 <= k < |a[1..]| && a[1..][k] == y;
          assert Less(a[0], y) by { assert a[k + 1] == y; }
          if y == b[0] { LessIrreflexive(y); }
          assert y in b;
        }
        if y in b[1..] {
          var k :| 0 <= k < |b[1..]| && b[1..][k] == y;
          assert Less(b[0], y) by { assert b[k + 1] == y; }
          if y == a[0] { LessIrreflexive(y); }
          assert y in a;
        }
      }
      SortedListingUnique(a[1..], b[1..]);
      assert a == [a[0]] + a[1..] && b == [b[0]] + b[1..];
    } else {
      // one of them is empty, so the other has no element either
      NonEmptyHasElement(a);
      NonEmptyHasElement(b);
    }
  }

  /** Python's `sep.join(xs)`: a lone element comes back unchanged, and no
      element is longer than the result. */
  function Join(xs: seq<string>, sep: string): (r: string)
    ensures xs == [] ==> r == []
    ensures |xs| == 1 ==> r == xs[0]
    ensures forall i :: 0 <= i < |xs| ==> |xs[i]| <= |r|
  {
    if xs == [] then ""
    else if |xs| == 1 then xs[0]
    else xs[0] + sep + Join(xs[1..], sep)
  }

  /** A join opens with its first element and closes with its last. */
  lemma {:induction false} JoinEnds(xs: seq<string>, sep: string)
    requires xs != []
    ensures StartsWith(Join(xs, sep), xs[0])
    ensures EndsWith(Join(xs, sep), xs[|xs| - 1])
  {
    if |xs| > 1 {
      JoinEnds(xs[1..], sep);
      var rest := Join(xs[1..], sep);
      assert Join(xs, sep) == xs[0] + (sep + rest);
      assert (xs[0] + (sep + rest))[..|xs[0]|] == xs[0];
      assert xs[1..][|xs| - 2] == xs[|xs| - 1];
      var whole := xs[0] + sep + rest;
      assert whole[|whole| - |rest|..] == rest;
    }
  }

  /** Joining five strings puts the separator between each neighbouring
      pair. */
  lemma JoinFive(a: string, b: string, c: string, d: string, e: string, sep: string)
    ensures Join([a, b, c, d, e], sep) == a + sep + b + sep + c + sep + d + sep + e
  {
    JoinCons(d, [e], sep);
    JoinCons(c, [d, e], sep);
    assert [c] + [d, e] == [c, d, e];
    JoinCons(b, [c, d, e], sep);
    assert [b] + [c, d, e] == [b, c, d, e];
    JoinCons(a, [b, c, d, e], sep);
    assert [a] + [b, c, d, e] == [a, b, c, d, e];
  }

  lemma JoinCons(x: string, xs: seq<string>, sep: string)
    requires xs != []
    ensures Join([x] + xs, sep) == x + sep + Join(xs, sep)
  {
    assert ([x] + xs)[1..] == xs;
  }

  /* ---------------------------------------------------------------------
   * str(n) for a non-negative integer
   * ------------------------------------------------------------------- */

  predicate IsDigit(c: char) {
    '0' <= c <= '9'
  }

  function DigitChar(d: nat): (c: char)
    requires d < 10
    ensures IsDigit(c) && c as int - '0' as int == d
  {
    ('0' as int + d) as char
  }

  /** Python's `str(n)` for `n >= 0`: decimal digits, no leading zero. */
  function NatToString(n: nat): (s: string)
    ensures s != []
    ensures forall k :: 0 <= k < |s| ==> IsDigit(s[k])
    ensures |s| > 1 ==> s[0] != '0'
  {
    if n < 10 then [DigitChar(n)] else NatToString(n / 10) + [DigitChar(n % 10)]
  }

  /** The number a string of decimal digits denotes. */
  function DecimalValue(s: string): nat
    requires forall k :: 0 <= k < |s| ==> IsDigit(s[k])
  {
    if s == [] then 0
    else
      assert IsDigit(s[|s| - 1]);
      10 * DecimalValue(s[..|s| - 1]) + (s[|s| - 1] as int - '0' as int)
  }

  /** Reading back the digits of `str(n)` gives `n`. */
  lemma {:induction false} NatToStringRoundTrip(n: nat)
    ensures DecimalValue(NatToString(n)) == n
  {
    if n >= 10 {
      NatToStringRoundTrip(n / 10);
      var s := NatToString(n);
      assert s[..|s| - 1] == NatToString(n / 10);
    }
  }
}
