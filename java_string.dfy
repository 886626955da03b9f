/**
  The two pieces of the Java standard library that the template code relies on:
  `String.replace(CharSequence, CharSequence)`, which replaces every
  non-overlapping occurrence of a literal target, scanning left to right, and the
  decimal rendering of a non-negative `int` that string concatenation performs.
 */
module JavaString {

  /** `pat` occurs in `s` starting at index `j`. */
  predicate OccursAt(s: string, pat: string, j: int) {
    0 <= j && j + |pat| <= |s| && s[j..j + |pat|] == pat
  }

  /** `pat` occurs somewhere in `s`. */
  ghost predicate Contains(s: string, pat: string) {
    exists j :: OccursAt(s, pat, j)
  }

  /**
    `s.replace(pat, rep)`: every occurrence of `pat` found by a left-to-right scan
    that resumes after each match is replaced by `rep`. An empty `pat` matches
    before every character and at the end, as in Java.
   */
  function ReplaceAll(s: string, pat: string, rep: string): string
    decreases |s|
  {
    if |pat| == 0 then
      if s == [] then rep else rep + [s[0]] + ReplaceAll(s[1..], pat, rep)
    else if s == [] then []
    else if pat <= s then rep + ReplaceAll(s[|pat|..], pat, rep)
    else [s[0]] + ReplaceAll(s[1..], pat, rep)
  }

  lemma OccursAtShift(s: string, pat: string, j: nat)
    requires s != []
    ensures OccursAt(s[1..], pat, j) <==> OccursAt(s, pat, j + 1)
  {
    if 0 <= j && j + 1 + |pat| <= |s| {
      assert s[1..][j..j + |pat|] == s[j + 1..j + 1 + |pat|];
    }
  }

  /** An occurrence in `w` is an occurrence in `u + w`, shifted by `|u|`. */
  lemma OccursAtAfterPrefix(u: string, w: string, pat: string, c: int)
    requires OccursAt(w, pat, c)
    ensures OccursAt(u + w, pat, |u| + c)
  {
    assert (u + w)[|u| + c..|u| + c + |pat|] == w[c..c + |pat|];
  }

  /** An occurrence at or after index `n` is an occurrence in `s[n..]`. */
  lemma OccursAtInSuffix(s: string, pat: string, b: int, n: nat)
    requires OccursAt(s, pat, b) && n <= b
    ensures OccursAt(s[n..], pat, b - n)
  {
    forall m | 0 <= m < |pat| ensures s[n..][b - n + m] == pat[m] {
      assert s[b..b + |pat|][m] == s[b + m];
    }
    assert s[n..][b - n..b - n + |pat|] == pat;
  }

  /** With no occurrence of a non-empty target, `replace` returns its receiver. */
  lemma {:induction false} ReplaceAllNoMatch(s: string, pat: string, rep: string)
    requires |pat| > 0 && !Contains(s, pat)
    ensures ReplaceAll(s, pat, rep) == s
    decreases |s|
  {
    if s != [] {
      assert !OccursAt(s, pat, 0);
      assert !(pat <= s);
      forall j ensures !OccursAt(s[1..], pat, j) {
        if j >= 0 { OccursAtShift(s, pat, j); }
      }
      ReplaceAllNoMatch(s[1..], pat, rep);
    }
  }

  /** `pat` occurs at index 0 exactly when it is a prefix. */
  lemma OccursAtFront(s: string, pat: string)
    ensures OccursAt(s, pat, 0) <==> pat <= s
  {
    if |pat| <= |s| {
      assert s[0..|pat|] == s[..|pat|];
    }
  }

  /** Every occurrence in `s` after index 0 is an occurrence in `s[1..]`, and back. */
  lemma ShiftAll(s: string, pat: string)
    requires s != []
    ensures forall j :: 0 < j ==> (OccursAt(s, pat, j) <==> OccursAt(s[1..], pat, j - 1))
  {
    forall j | 0 < j ensures OccursAt(s, pat, j) <==> OccursAt(s[1..], pat, j - 1) {
      OccursAtShift(s, pat, j - 1);
    }
  }

  /** `s.indexOf(pat)`: the first index at which `pat` occurs, or -1. */
  function IndexOf(s: string, pat: string): int
    decreases |s|
  {
    if pat <= s then 0
    else if s == [] then -1
    else
      var k := IndexOf(s[1..], pat);
      if k < 0 then -1 else k + 1
  }

  /** `indexOf` finds the leftmost occurrence, and reports -1 exactly when there is none. */
  lemma {:induction false} IndexOfLeftmost(s: string, pat: string)
    ensures -1 <= IndexOf(s, pat)
    ensures IndexOf(s, pat) >= 0 ==> OccursAt(s, pat, IndexOf(s, pat))
    ensures forall m :: 0 <= m < IndexOf(s, pat) ==> !OccursAt(s, pat, m)
    ensures IndexOf(s, pat) < 0 <==> !Contains(s, pat)
    decreases |s|
  {
    OccursAtFront(s, pat);
    if pat <= s {
    } else if s != [] {
      var k := IndexOf(s[1..], pat);
      IndexOfLeftmost(s[1..], pat);
      ShiftAll(s, pat);
      assert IndexOf(s, pat) == if k < 0 then -1 else k + 1;
    }
  }

  /** One scan step of `replace` when the target is not at the front. */
  lemma ReplaceAllMiss(s: string, pat: string, rep: string)
    requires |pat| > 0 && s != [] && !(pat <= s)
    ensures ReplaceAll(s, pat, rep) == [s[0]] + ReplaceAll(s[1..], pat, rep)
  {
  }

  /** One scan step of `replace` when the target is at the front. */
  lemma ReplaceAllHit(s: string, pat: string, rep: string)
    requires |pat| > 0 && pat <= s
    ensures ReplaceAll(s, pat, rep) == rep + ReplaceAll(s[|pat|..], pat, rep)
  {
  }

  /** The sequence algebra of one scan step, kept apart from `ReplaceAll`. */
  lemma PrependStep(s: string, a: string, b: string, rep: string, x: string, k: nat)
    requires k + 1 <= |s|
    requires a == [s[0]] + b && b == s[1..][..k] + rep + x
    ensures a == s[..k + 1] + rep + x
  {
    assert [s[0]] + s[1..][..k] == s[..k + 1];
  }

  lemma FirstMatchStep(s: string, pat: string, rep: string, k: nat, j: nat)
    requires |pat| > 0 && j == k + 1 && j + |pat| <= |s| && !(pat <= s)
    requires ReplaceAll(s[1..], pat, rep)
          == s[1..][..k] + rep + ReplaceAll(s[1..][k + |pat|..], pat, rep)
    ensures ReplaceAll(s, pat, rep) == s[..j] + rep + ReplaceAll(s[j + |pat|..], pat, rep)
  {
    ReplaceAllMiss(s, pat, rep);
    assert s[1..][k + |pat|..] == s[j + |pat|..];
    PrependStep(s, ReplaceAll(s, pat, rep), ReplaceAll(s[1..], pat, rep), rep,
                ReplaceAll(s[j + |pat|..], pat, rep), k);
  }

  /**
    Java's `indexOf` loop: the text before the first match `j = s.indexOf(pat)` is
    kept, the match becomes `rep`, and the scan resumes right after the match.
   */
  lemma {:induction false} ReplaceAllFirstMatch(s: string, pat: string, rep: string, j: nat)
    requires |pat| > 0 && j == IndexOf(s, pat) && j + |pat| <= |s|
    ensures ReplaceAll(s, pat, rep) == s[..j] + rep + ReplaceAll(s[j + |pat|..], pat, rep)
    decreases |s|
  {
    if pat <= s {
      assert s[..0] + rep == rep;
      ReplaceAllHit(s, pat, rep);
    } else {
      var k := IndexOf(s[1..], pat);
      ReplaceAllFirstMatch(s[1..], pat, rep, k);
      FirstMatchStep(s, pat, rep, k, j);
    }
  }

  /** `w` occurs in `u + w + x` right after `u`. */
  lemma OccursInMiddle(u: string, w: string, x: string)
    ensures OccursAt(u + w + x, w, |u|)
  {
    assert (u + w + x)[|u|..|u| + |w|] == w;
  }

  /** Containment is transitive. */
  lemma ContainsTransitive(a: string, b: string, c: string)
    requires Contains(a, b) && Contains(b, c)
    ensures Contains(a, c)
  {
    var i :| OccursAt(a, b, i);
    var j :| OccursAt(b, c, j);
    forall m | 0 <= m < |c| ensures a[i + j + m] == c[m] {
      assert a[i..i + |b|][j + m] == a[i + j + m];
      assert b[j..j + |c|][m] == b[j + m];
    }
    assert a[i + j..i + j + |c|] == c;
    assert OccursAt(a, c, i + j);
  }

  /** When the target occurs, the replacement text occurs in the result. */
  lemma ReplacementOccurs(s: string, pat: string, rep: string)
    requires |pat| > 0 && Contains(s, pat)
    ensures Contains(ReplaceAll(s, pat, rep), rep)
  {
    IndexOfLeftmost(s, pat);
    var j := IndexOf(s, pat);
    ReplaceAllFirstMatch(s, pat, rep, j);
    OccursInMiddle(s[..j], rep, ReplaceAll(s[j + |pat|..], pat, rep));
  }

  /** Replacing a target by itself changes nothing, for every target. */
  lemma {:induction false} ReplaceAllIdentity(s: string, pat: string)
    ensures ReplaceAll(s, pat, pat) == s
    decreases |s|
  {
    if s != [] {
      if |pat| == 0 {
        ReplaceAllIdentity(s[1..], pat);
      } else if pat <= s {
        ReplaceAllIdentity(s[|pat|..], pat);
        assert s == pat + s[|pat|..];
      } else {
        ReplaceAllIdentity(s[1..], pat);
      }
    }
  }

  /** A prefix without the target's first character is copied through unchanged. */
  lemma {:induction false} ReplaceAllPrefix(u: string, w: string, pat: string, rep: string)
    requires |pat| > 0 && pat[0] !in u
    ensures ReplaceAll(u + w, pat, rep) == u + ReplaceAll(w, pat, rep)
    decreases |u|
  {
    if u != [] {
      var s := u + w;
      assert s[0] == u[0];
      assert !(pat <= s);
      assert ReplaceAll(s, pat, rep) == [s[0]] + ReplaceAll(s[1..], pat, rep);
      assert s[1..] == u[1..] + w;
      ReplaceAllPrefix(u[1..], w, pat, rep);
      calc {
        ReplaceAll(s, pat, rep);
        [u[0]] + ReplaceAll(u[1..] + w, pat, rep);
        [u[0]] + (u[1..] + ReplaceAll(w, pat, rep));
        { assert u == [u[0]] + u[1..]; }
        u + ReplaceAll(w, pat, rep);
      }
    } else {
      assert u + w == w;
    }
  }

  /** A string without the target's first character is returned unchanged. */
  lemma ReplaceAllWithoutFirstChar(s: string, pat: string, rep: string)
    requires |pat| > 0 && pat[0] !in s
    ensures ReplaceAll(s, pat, rep) == s
  {
    ReplaceAllPrefix(s, [], pat, rep);
    assert s + [] == s;
  }

  /** A string that is exactly the target becomes exactly the replacement. */
  lemma ReplaceAllWhole(pat: string, rep: string)
    requires |pat| > 0
    ensures ReplaceAll(pat, pat, rep) == rep
  {
    assert pat[|pat|..] == [];
  }

  predicate IsDigit(c: char) {
    '0' <= c <= '9'
  }

  function DigitChar(d: nat): (c: char)
    requires d < 10
    ensures IsDigit(c)
  {
    ('0' as int + d) as char
  }

  function DigitValue(c: char): (d: nat)
    requires IsDigit(c)
    ensures d < 10 && DigitChar(d) == c
  {
    c as int - '0' as int
  }

  /**
    The decimal text of a non-negative `int`, as `"" + i` renders it: at least one
    digit, and a leading `'0'` only for zero itself.
   */
  function Decimal(n: nat): (r: string)
    ensures |r| >= 1
    ensures forall k :: 0 <= k < |r| ==> IsDigit(r[k])
    ensures r[0] == '0' <==> n == 0
    decreases n
  {
    if n < 10 then [DigitChar(n)] else Decimal(n / 10) + [DigitChar(n % 10)]
  }

  /** Reads a string of decimal digits back as a number. */
  function ParseDecimal(s: string): nat
    requires forall k :: 0 <= k < |s| ==> IsDigit(s[k])
    decreases |s|
  {
    if s == [] then 0 else 10 * ParseDecimal(s[..|s| - 1]) + DigitValue(s[|s| - 1])
  }

  lemma {:induction false} DecimalRoundTrip(n: nat)
    ensures ParseDecimal(Decimal(n)) == n
    decreases n
  {
    if n >= 10 {
      var r := Decimal(n);
      assert r[..|r| - 1] == Decimal(n / 10);
      DecimalRoundTrip(n / 10);
    }
  }

  /** Distinct numbers have distinct decimal texts. */
  lemma DecimalInjective(a: nat, b: nat)
    ensures Decimal(a) == Decimal(b) ==> a == b
  {
    DecimalRoundTrip(a);
    DecimalRoundTrip(b);
  }
}
