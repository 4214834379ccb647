/**
 * Text operations the migration tool borrows from Python's `str`: ASCII case
 * folding (`lower`), whitespace trimming (`strip`), `"\n".join`, decimal
 * rendering of a number (`"%d" % n`) and `replace`, with the facts about
 * substring occurrences that the placeholder rewriting relies on.
 */
module Strings {

  // ---------------------------------------------------------------------------
  // Occurrences
  // ---------------------------------------------------------------------------

  /** `pat` occurs in `s` starting at position `k`. */
  predicate OccursAt(s: string, pat: string, k: nat) {
    k + |pat| <= |s| && s[k..k + |pat|] == pat
  }

  /** Python's `pat in s`. */
  ghost predicate Contains(s: string, pat: string) {
    exists k: nat :: OccursAt(s, pat, k)
  }

  lemma {:induction false} ContainsInfix(a: string, t: string, b: string)
    ensures Contains(a + t + b, t)
  {
    assert (a + t + b)[|a|..|a| + |t|] == t;
    assert OccursAt(a + t + b, t, |a|);
  }

  /** An occurrence survives putting text in front. */
  lemma {:induction false} ContainsAfterPrefix(a: string, s: string, pat: string)
    requires Contains(s, pat)
    ensures Contains(a + s, pat)
  {
    var k: nat :| OccursAt(s, pat, k);
    assert (a + s)[|a| + k..|a| + k + |pat|] == s[k..k + |pat|];
    assert OccursAt(a + s, pat, |a| + k);
  }

  /** An occurrence survives putting text behind. */
  lemma {:induction false} ContainsBeforeSuffix(s: string, b: string, pat: string)
    requires Contains(s, pat)
    ensures Contains(s + b, pat)
  {
    var k: nat :| OccursAt(s, pat, k);
    assert (s + b)[k..k + |pat|] == s[k..k + |pat|];
    assert OccursAt(s + b, pat, k);
  }

  /** An occurrence inside an occurrence is an occurrence. */
  lemma ContainsTransitive(s: string, t: string, u: string)
    requires Contains(s, t) && Contains(t, u)
    ensures Contains(s, u)
  {
    var k1: nat :| OccursAt(s, t, k1);
    var k2: nat :| OccursAt(t, u, k2);
    forall i | 0 <= i < |u| ensures s[k1 + k2 + i] == u[i] {
      assert s[k1..k1 + |t|][k2 + i] == t[k2 + i];
      assert t[k2..k2 + |u|][i] == u[i];
    }
    assert s[k1 + k2..k1 + k2 + |u|] == u;
    assert OccursAt(s, u, k1 + k2);
  }

  /** `a` and `b` agree on every position both have: laid over each other they do not clash. */
  predicate Agree(a: string, b: string) {
    forall i :: 0 <= i < |a| && i < |b| ==> a[i] == b[i]
  }

  /**
   * No occurrence of `pat` can overlap an occurrence of `q` in any string:
   * wherever one would start inside (or at the start of) the other, some
   * character differs.
   */
  predicate Apart(pat: string, q: string) {
    && (forall t :: 0 <= t < |q| ==> !Agree(pat, q[t..]))
    && (forall t :: 0 < t < |pat| ==> !Agree(pat[t..], q))
  }

  /** An occurrence agrees with the text from its start on. */
  lemma OccurrenceAgrees(s: string, pat: string, k: nat)
    ensures OccursAt(s, pat, k) ==> Agree(pat, s[k..])
  {
    if OccursAt(s, pat, k) {
      forall i | 0 <= i < |pat| && i < |s[k..]| ensures pat[i] == s[k..][i] {
        assert s[k..k + |pat|][i] == s[k + i];
      }
    }
  }

  /** Agreeing with a text means agreeing with each of its prefixes. */
  lemma AgreePrefix(a: string, b: string, n: nat)
    requires n <= |b|
    ensures Agree(a, b) ==> Agree(a, b[..n])
  {
    if Agree(a, b) {
      forall i | 0 <= i < |a| && i < n ensures a[i] == b[..n][i] {
        assert b[..n][i] == b[i];
      }
    }
  }

  /** Strings that cannot overlap cannot contain one another. */
  lemma ApartNotContained(pat: string, q: string)
    requires pat != [] && Apart(pat, q)
    ensures !Contains(q, pat)
  {
    forall t: nat ensures !OccursAt(q, pat, t) {
      OccurrenceAgrees(q, pat, t);
    }
  }

  // ---------------------------------------------------------------------------
  // str.replace
  // ---------------------------------------------------------------------------

  /**
   * Python's `s.replace(pat, rep)`: scans left to right and replaces every
   * non-overlapping occurrence of `pat`. The empty pattern (which Python
   * treats specially) is never used by the tool.
   */
  function ReplaceAll(s: string, pat: string, rep: string): string
    requires pat != []
    decreases |s|
  {
    if |s| < |pat| then s
    else if s[..|pat|] == pat then rep + ReplaceAll(s[|pat|..], pat, rep)
    else [s[0]] + ReplaceAll(s[1..], pat, rep)
  }

  lemma OccursAtTail(u: string, pat: string, p: nat)
    requires |u| > 0
    ensures OccursAt(u[1..], pat, p) <==> OccursAt(u, pat, p + 1)
  {
    if p + |pat| <= |u[1..]| {
      assert u[1..][p..p + |pat|] == u[p + 1..p + 1 + |pat|];
    }
  }

  lemma OccursAtDrop(u: string, pat: string, d: nat, p: nat)
    requires d <= |u|
    ensures OccursAt(u[d..], pat, p) <==> OccursAt(u, pat, p + d)
  {
    if p + |pat| <= |u[d..]| {
      assert u[d..][p..p + |pat|] == u[p + d..p + d + |pat|];
    }
  }

  /** Where no match starts, the scan copies the text unchanged. */
  lemma {:induction false} ReplaceAllCopiesPrefix(u: string, pat: string, rep: string, m: nat)
    requires pat != [] && m <= |u|
    requires forall p: nat :: p < m ==> !OccursAt(u, pat, p)
    ensures m <= |ReplaceAll(u, pat, rep)| && ReplaceAll(u, pat, rep)[..m] == u[..m]
    decreases m
  {
    if m > 0 && |u| >= |pat| {
      assert !OccursAt(u, pat, 0);
      assert u[..|pat|] != pat by { assert u[0..|pat|] == u[..|pat|]; }
      forall p: nat | p < m - 1 ensures !OccursAt(u[1..], pat, p) {
        OccursAtTail(u, pat, p);
      }
      ReplaceAllCopiesPrefix(u[1..], pat, rep, m - 1);
      var t := ReplaceAll(u[1..], pat, rep);
      assert ReplaceAll(u, pat, rep) == [u[0]] + t;
      assert ([u[0]] + t)[..m] == [u[0]] + t[..m - 1];
      assert u[..m] == [u[0]] + u[1..][..m - 1];
    }
  }

  /**
   * A prefix of the result either is the same prefix of the input, or holds
   * the first character of a replacement.
   */
  lemma {:induction false} ReplaceAllPrefix(u: string, pat: string, rep: string, m: nat)
    requires pat != [] && rep != []
    requires m <= |ReplaceAll(u, pat, rep)|
    ensures (m <= |u| && ReplaceAll(u, pat, rep)[..m] == u[..m])
            || rep[0] in ReplaceAll(u, pat, rep)[..m]
    decreases |u|
  {
    var r := ReplaceAll(u, pat, rep);
    if m == 0 || |u| < |pat| {
    } else if u[..|pat|] == pat {
      assert r[..m][0] == rep[0];
    } else {
      var t := ReplaceAll(u[1..], pat, rep);
      assert r == [u[0]] + t;
      ReplaceAllPrefix(u[1..], pat, rep, m - 1);
      assert r[..m] == [u[0]] + t[..m - 1];
      if m - 1 <= |u[1..]| && t[..m - 1] == u[1..][..m - 1] {
        assert u[..m] == [u[0]] + u[1..][..m - 1];
      } else {
        assert rep[0] in t[..m - 1];
        var j :| 0 <= j < m - 1 && t[..m - 1][j] == rep[0];
        assert r[..m][j + 1] == rep[0];
      }
    }
  }

  /** An occurrence in a suffix is an occurrence in the whole. */
  lemma ContainsFromSuffix(u: string, d: nat, pat: string)
    requires d <= |u| && Contains(u[d..], pat)
    ensures Contains(u, pat)
  {
    var k: nat :| OccursAt(u[d..], pat, k);
    OccursAtDrop(u, pat, d, k);
  }

  /**
   * Replacing `pat` creates no new occurrence of `q`, provided an occurrence
   * of `q` can neither start inside a replacement nor run into one.
   */
  lemma {:induction false} ReplaceAllCreatesNoOccurrence(s: string, pat: string, rep: string, q: string)
    requires pat != [] && rep != [] && q != []
    requires q[0] !in rep && rep[0] !in q
    ensures Contains(ReplaceAll(s, pat, rep), q) ==> Contains(s, q)
    decreases |s|
  {
    var r := ReplaceAll(s, pat, rep);
    if |s| >= |pat| {
      var matched := s[..|pat|] == pat;
      var d := if matched then |pat| else 1;
      var lead := if matched then rep else [s[0]];
      var t := ReplaceAll(s[d..], pat, rep);
      assert r == lead + t;
      ReplaceAllCreatesNoOccurrence(s[d..], pat, rep, q);
      forall k: nat ensures OccursAt(r, q, k) ==> Contains(s, q) {
        if k == 0 {
          if |q| <= |r| {
            ReplaceAllPrefix(s, pat, rep, |q|);
            assert r[..|q|] == r[0..|q|];
            if |q| <= |s| && r[..|q|] == s[..|q|] {
              assert s[..|q|] == s[0..|q|];
              assert OccursAt(r, q, 0) ==> OccursAt(s, q, 0);
            }
          }
        } else if k < |lead| {
          if k + |q| <= |r| { assert r[k..k + |q|][0] == rep[k]; }
        } else {
          OccursAtDrop(r, q, |lead|, k - |lead|);
          assert r[|lead|..] == t;
          if OccursAt(r, q, k) { ContainsFromSuffix(s, d, q); }
        }
      }
    }
  }

  /**
   * After the replacement no occurrence of `pat` is left, provided the
   * replacement cannot begin or complete one.
   */
  lemma {:induction false} ReplaceAllRemoves(s: string, pat: string, rep: string)
    requires pat != [] && rep != []
    requires pat[0] !in rep && rep[0] !in pat
    ensures !Contains(ReplaceAll(s, pat, rep), pat)
    decreases |s|
  {
    var r := ReplaceAll(s, pat, rep);
    if |s| >= |pat| {
      var matched := s[..|pat|] == pat;
      var d := if matched then |pat| else 1;
      var lead := if matched then rep else [s[0]];
      var t := ReplaceAll(s[d..], pat, rep);
      assert r == lead + t;
      ReplaceAllRemoves(s[d..], pat, rep);
      forall k: nat ensures !OccursAt(r, pat, k) {
        if matched && k < |rep| {
          if k + |pat| <= |r| { assert r[k..k + |pat|][0] == rep[k]; }
        } else if k == 0 {
          if |pat| <= |r| {
            ReplaceAllPrefix(s, pat, rep, |pat|);
            assert r[..|pat|] == r[0..|pat|];
          }
        } else {
          OccursAtDrop(r, pat, |lead|, k - |lead|);
          assert r[|lead|..] == t;
        }
      }
    }
  }

  /** An occurrence of `q` that starts inside a leading `pat` agrees with the rest of `pat`. */
  lemma OverlapAgrees(s: string, pat: string, q: string, k: nat)
    requires |pat| <= |s| && s[..|pat|] == pat
    ensures OccursAt(s, q, k) && k < |pat| ==> Agree(pat[k..], q)
  {
    if OccursAt(s, q, k) && k < |pat| {
      forall i | 0 <= i < |pat[k..]| && i < |q| ensures pat[k..][i] == q[i] {
        assert s[..|pat|][k + i] == s[k + i];
        assert s[k..k + |q|][i] == s[k + i];
      }
    }
  }

  /** A leading occurrence of `q` that no match of `pat` can overlap is copied unchanged. */
  lemma ReplaceAllKeepsLeading(s: string, pat: string, rep: string, q: string)
    requires pat != [] && Apart(pat, q) && OccursAt(s, q, 0)
    ensures OccursAt(ReplaceAll(s, pat, rep), q, 0)
  {
    forall p: nat | p < |q| ensures !OccursAt(s, pat, p) {
      OccurrenceAgrees(s, pat, p);
      AgreePrefix(pat, s[p..], |q| - p);
      assert s[p..][..|q| - p] == q[p..];
    }
    ReplaceAllCopiesPrefix(s, pat, rep, |q|);
    var r := ReplaceAll(s, pat, rep);
    assert r[..|q|] == s[..|q|] == s[0..|q|];
  }

  /** An occurrence of `q` that no match of `pat` can overlap survives the replacement. */
  lemma {:induction false} ReplaceAllKeepsOccurrence(s: string, pat: string, rep: string, q: string, k: nat)
    requires pat != [] && Apart(pat, q) && OccursAt(s, q, k)
    ensures Contains(ReplaceAll(s, pat, rep), q)
    decreases |s|
  {
    var r := ReplaceAll(s, pat, rep);
    if k == 0 {
      ReplaceAllKeepsLeading(s, pat, rep, q);
    } else if |s| < |pat| {
      assert OccursAt(r, q, k);
    } else if s[..|pat|] == pat {
      OverlapAgrees(s, pat, q, k);
      assert k >= |pat|;
      OccursAtDrop(s, q, |pat|, k - |pat|);
      ReplaceAllKeepsOccurrence(s[|pat|..], pat, rep, q, k - |pat|);
      ContainsAfterPrefix(rep, ReplaceAll(s[|pat|..], pat, rep), q);
    } else {
      OccursAtTail(s, q, k - 1);
      ReplaceAllKeepsOccurrence(s[1..], pat, rep, q, k - 1);
      ContainsAfterPrefix([s[0]], ReplaceAll(s[1..], pat, rep), q);
    }
  }

  /** Text that holds `pat` holds the replacement afterwards. */
  lemma {:induction false} ReplaceAllInserts(s: string, pat: string, rep: string, k: nat)
    requires pat != [] && OccursAt(s, pat, k)
    ensures Contains(ReplaceAll(s, pat, rep), rep)
    decreases |s|
  {
    var r := ReplaceAll(s, pat, rep);
    if s[..|pat|] == pat {
      assert r == rep + ReplaceAll(s[|pat|..], pat, rep);
      assert r[0..|rep|] == rep;
      assert OccursAt(r, rep, 0);
    } else {
      assert k > 0 by { assert s[..|pat|] == s[0..|pat|]; }
      OccursAtTail(s, pat, k - 1);
      ReplaceAllInserts(s[1..], pat, rep, k - 1);
      ContainsAfterPrefix([s[0]], ReplaceAll(s[1..], pat, rep), rep);
    }
  }

  /** Text without `pat` comes back unchanged. */
  lemma {:induction false} ReplaceAllWithoutMatch(s: string, pat: string, rep: string)
    requires pat != [] && !Contains(s, pat)
    ensures ReplaceAll(s, pat, rep) == s
    decreases |s|
  {
    if |s| >= |pat| {
      assert !OccursAt(s, pat, 0);
      assert s[..|pat|] == s[0..|pat|];
      forall p: nat ensures !OccursAt(s[1..], pat, p) {
        OccursAtTail(s, pat, p);
      }
      ReplaceAllWithoutMatch(s[1..], pat, rep);
      assert [s[0]] + s[1..] == s;
    }
  }

  // ---------------------------------------------------------------------------
  // str.lower (ASCII)
  // ---------------------------------------------------------------------------

  function LowerChar(c: char): char {
    if 'A' <= c <= 'Z' then (c as int + 32) as char else c
  }

  /** `s.lower()` on ASCII letters; other characters are kept. */
  function Lower(s: string): (r: string)
    ensures |r| == |s|
    ensures forall i :: 0 <= i < |s| ==> r[i] == LowerChar(s[i])
  {
    if s == [] then [] else [LowerChar(s[0])] + Lower(s[1..])
  }

  /** Lower-casing twice is lower-casing once; the result has no upper-case ASCII letter. */
  lemma LowerIdempotent(s: string)
    ensures Lower(Lower(s)) == Lower(s)
    ensures forall i :: 0 <= i < |s| ==> !('A' <= Lower(s)[i] <= 'Z')
  {
    var l := Lower(s);
    forall i | 0 <= i < |l| ensures LowerChar(l[i]) == l[i] {
      assert l[i] == LowerChar(s[i]);
    }
    var ll := Lower(l);
    assert |ll| == |l| && forall i :: 0 <= i < |l| ==> ll[i] == l[i];
  }

  // ---------------------------------------------------------------------------
  // str.strip
  // ---------------------------------------------------------------------------

  /** Python's `str.isspace` for one character. */
  predicate IsSpace(c: char) {
    || c == ' ' || '\t' <= c <= '\r' || '\U{1c}' <= c <= '\U{1f}'
    || c == '\U{85}' || c == '\U{a0}' || c == '\U{1680}' || '\U{2000}' <= c <= '\U{200a}'
    || c == '\U{2028}' || c == '\U{2029}' || c == '\U{202f}' || c == '\U{205f}' || c == '\U{3000}'
  }

  function StripLeft(s: string): string {
    if s != [] && IsSpace(s[0]) then StripLeft(s[1..]) else s
  }

  function StripRight(s: string): string {
    if s != [] && IsSpace(s[|s| - 1]) then StripRight(s[..|s| - 1]) else s
  }

  /** `s.strip()`: drop leading and trailing whitespace. */
  function Strip(s: string): string {
    StripRight(StripLeft(s))
  }

  /** `s.lstrip()` is a suffix of `s`. */
  lemma {:induction false} StripLeftShape(s: string)
    ensures |StripLeft(s)| <= |s| && StripLeft(s) == s[|s| - |StripLeft(s)|..]
    decreases |s|
  {
    if s != [] && IsSpace(s[0]) {
      var t := s[1..];
      StripLeftShape(t);
      assert t[|t| - |StripLeft(t)|..] == s[|s| - |StripLeft(s)|..];
    }
  }

  /** `s.lstrip()` drops exactly the leading whitespace of `s`. */
  lemma {:induction false} StripLeftFacts(s: string)
    ensures |StripLeft(s)| <= |s|
    ensures forall i :: 0 <= i < |s| - |StripLeft(s)| ==> IsSpace(s[i])
    ensures StripLeft(s) != [] ==> !IsSpace(StripLeft(s)[0])
    decreases |s|
  {
    if s != [] && IsSpace(s[0]) {
      var t := s[1..];
      StripLeftFacts(t);
      forall i | 0 <= i < |s| - |StripLeft(s)| ensures IsSpace(s[i]) {
        if i > 0 { assert s[i] == t[i - 1]; }
      }
    }
  }

  /** `s.rstrip()` is a prefix of `s`. */
  lemma {:induction false} StripRightShape(s: string)
    ensures |StripRight(s)| <= |s| && StripRight(s) == s[..|StripRight(s)|]
    decreases |s|
  {
    if s != [] && IsSpace(s[|s| - 1]) {
      var t := s[..|s| - 1];
      StripRightShape(t);
      assert t[..|StripRight(t)|] == s[..|StripRight(s)|];
    }
  }

  /** `s.rstrip()` drops exactly the trailing whitespace of `s`. */
  lemma {:induction false} StripRightFacts(s: string)
    ensures |StripRight(s)| <= |s|
    ensures forall i :: |StripRight(s)| <= i < |s| ==> IsSpace(s[i])
    ensures StripRight(s) != [] ==> !IsSpace(StripRight(s)[|StripRight(s)| - 1])
    decreases |s|
  {
    if s != [] && IsSpace(s[|s| - 1]) {
      var t := s[..|s| - 1];
      StripRightFacts(t);
      StripRightShape(t);
      forall i | |StripRight(s)| <= i < |s| ensures IsSpace(s[i]) {
        if i < |s| - 1 { assert s[i] == t[i]; }
      }
    }
  }

  /**
   * `s.strip()` neither starts nor ends with whitespace, and it is empty
   * exactly when the text is all whitespace.
   */
  lemma StripFacts(s: string)
    ensures Strip(s) != [] ==> !IsSpace(Strip(s)[0]) && !IsSpace(Strip(s)[|Strip(s)| - 1])
    ensures Strip(s) == [] <==> forall i :: 0 <= i < |s| ==> IsSpace(s[i])
  {
    var l := StripLeft(s);
    StripLeftFacts(s);
    StripLeftShape(s);
    StripRightFacts(l);
    StripRightShape(l);
    if Strip(s) != [] {
      assert Strip(s)[0] == l[0];
      assert !IsSpace(s[|s| - |l|]);
    }
  }

  /**
   * `s.strip()` is the infix of `s` that starts where the leading
   * whitespace ends (see `StripLeftFacts`).
   */
  lemma StripInfix(s: string)
    ensures |Strip(s)| <= |StripLeft(s)| <= |s|
    ensures Strip(s) == s[|s| - |StripLeft(s)|..|s| - |StripLeft(s)| + |Strip(s)|]
  {
    var l := StripLeft(s);
    StripLeftShape(s);
    StripRightShape(l);
    assert l[..|Strip(s)|] == s[|s| - |l|..|s| - |l| + |Strip(s)|];
  }

  /** Only whitespace follows `s.strip()` in `s`. */
  lemma StripTrailing(s: string)
    ensures |Strip(s)| <= |StripLeft(s)| <= |s|
    ensures forall i :: |s| - |StripLeft(s)| + |Strip(s)| <= i < |s| ==> IsSpace(s[i])
  {
    var l := StripLeft(s);
    StripLeftShape(s);
    StripRightShape(l);
    forall i | |s| - |l| + |Strip(s)| <= i < |s| ensures IsSpace(s[i]) {
      var j := i - (|s| - |l|);
      assert s[i] == l[j];
      assert IsSpace(l[j]) by {
        StripRightFacts(l);
      }
    }
  }

  // ---------------------------------------------------------------------------
  // "\n".join
  // ---------------------------------------------------------------------------

  /** `sep.join(parts)`. */
  function Join(parts: seq<string>, sep: string): string {
    if |parts| == 0 then ""
    else if |parts| == 1 then parts[0]
    else parts[0] + sep + Join(parts[1..], sep)
  }

  /** Every part appears in the joined text. */
  lemma {:induction false} JoinContainsPart(parts: seq<string>, sep: string, i: nat)
    requires i < |parts|
    ensures Contains(Join(parts, sep), parts[i])
    decreases |parts|
  {
    if |parts| == 1 {
      ContainsInfix([], parts[0], []);
      assert [] + parts[0] + [] == parts[0];
    } else if i == 0 {
      ContainsInfix([], parts[0], sep + Join(parts[1..], sep));
      assert [] + parts[0] + (sep + Join(parts[1..], sep)) == Join(parts, sep);
    } else {
      JoinContainsPart(parts[1..], sep, i - 1);
      ContainsAfterPrefix(parts[0] + sep, Join(parts[1..], sep), parts[i]);
      assert (parts[0] + sep) + Join(parts[1..], sep) == Join(parts, sep);
    }
  }

  /** With two parts or more, the joined text begins with the first part and a separator. */
  lemma {:induction false} JoinStartsWith(parts: seq<string>, sep: string)
    requires |parts| >= 2
    ensures |parts[0] + sep| <= |Join(parts, sep)|
    ensures Join(parts, sep)[..|parts[0] + sep|] == parts[0] + sep
  {
    assert Join(parts, sep) == (parts[0] + sep) + Join(parts[1..], sep);
  }

  // ---------------------------------------------------------------------------
  // "%d" % n
  // ---------------------------------------------------------------------------

  predicate IsDigit(c: char) { '0' <= c <= '9' }

  function DigitChar(d: nat): char
    requires d < 10
  {
    ('0' as int + d) as char
  }

  /** Decimal rendering of a natural number, without leading zeros. */
  function Decimal(n: nat): (r: string)
    ensures r != [] && forall i :: 0 <= i < |r| ==> IsDigit(r[i])
  {
    if n < 10 then [DigitChar(n)] else Decimal(n / 10) + [DigitChar(n % 10)]
  }

  /** The value of a string of decimal digits. */
  function DecimalValue(s: string): nat
    requires forall i :: 0 <= i < |s| ==> IsDigit(s[i])
  {
    if s == [] then 0
    else
      var d := s[|s| - 1];
      assert IsDigit(d);
      DecimalValue(s[..|s| - 1]) * 10 + (d as int - '0' as int)
  }

  /** Reading back a rendered number gives the number. */
  lemma {:induction false} DecimalRoundTrip(n: nat)
    ensures DecimalValue(Decimal(n)) == n
  {
    if n >= 10 {
      var d := Decimal(n);
      assert d[..|d| - 1] == Decimal(n / 10);
      DecimalRoundTrip(n / 10);
    }
  }

  /** Different numbers render differently. */
  lemma DecimalInjective(m: nat, n: nat)
    requires Decimal(m) == Decimal(n)
    ensures m == n
  {
    DecimalRoundTrip(m);
    DecimalRoundTrip(n);
  }
}
