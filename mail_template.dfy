/**
  Positional template substitution of the mail utility: `{0}` is replaced by the
  first value, then `{1}` by the second, and so on, each step a Java
  `String.replace` over the text produced by the previous step.
 */
module MailTemplate {
  import opened JavaString

  /** The literal placeholder `"{" + i + "}"` for position `i`. */
  function Placeholder(i: nat): (p: string)
    ensures |p| >= 3 && p[0] == '{' && p[|p| - 1] == '}'
    ensures forall k :: 0 < k < |p| - 1 ==> IsDigit(p[k])
  {
    "{" + Decimal(i) + "}"
  }

  /** Different positions have different placeholders. */
  lemma PlaceholderInjective(i: nat, j: nat)
    ensures Placeholder(i) == Placeholder(j) ==> i == j
  {
    if Placeholder(i) == Placeholder(j) {
      var p := Placeholder(i);
      assert Decimal(i) == p[1..|p| - 1] == Decimal(j);
      DecimalInjective(i, j);
    }
  }

  /**
    Two placeholder occurrences never overlap: one that starts inside another
    starts at the same index and is the same placeholder.
   */
  lemma PlaceholdersDisjoint(s: string, i: nat, a: nat, k: nat, b: nat)
    requires OccursAt(s, Placeholder(i), a) && OccursAt(s, Placeholder(k), b)
    requires a <= b < a + |Placeholder(i)|
    ensures a == b && i == k
  {
    var p, q := Placeholder(i), Placeholder(k);
    forall m | a <= m < a + |p| ensures s[m] == p[m - a] {
      assert s[a..a + |p|][m - a] == s[m];
    }
    forall m | b <= m < b + |q| ensures s[m] == q[m - b] {
      assert s[b..b + |q|][m - b] == s[m];
    }
    // only the first character of a placeholder is `{`, only its last is `}`
    assert s[b] == '{';
    assert a == b;
    assert s[a + |p| - 1] == '}' && s[a + |q| - 1] == '}';
    assert |p| == |q|;
    assert p == s[a..a + |p|] == q;
    PlaceholderInjective(i, k);
  }

  /** The text of one placeholder contains no other placeholder. */
  lemma PlaceholderOnlyContainsItself(i: nat, k: nat)
    requires i != k
    ensures !Contains(Placeholder(i), Placeholder(k))
  {
    var p := Placeholder(i);
    assert OccursAt(p, p, 0) by { assert p[0..|p|] == p; }
    forall b ensures !OccursAt(p, Placeholder(k), b) {
      if OccursAt(p, Placeholder(k), b) {
        PlaceholdersDisjoint(p, i, 0, k, b);
      }
    }
  }

  /** Replacing one placeholder leaves a different placeholder's text alone. */
  lemma OtherPlaceholderUnchanged(i: nat, k: nat, v: string)
    requires i != k
    ensures ReplaceAll(Placeholder(i), Placeholder(k), v) == Placeholder(i)
  {
    PlaceholderOnlyContainsItself(i, k);
    ReplaceAllNoMatch(Placeholder(i), Placeholder(k), v);
  }

  /** An occurrence in `w` is an occurrence in `u + w`. */
  lemma ContainsAfterPrefix(u: string, w: string, pat: string)
    requires Contains(w, pat)
    ensures Contains(u + w, pat)
  {
    var c :| OccursAt(w, pat, c);
    OccursAtAfterPrefix(u, w, pat, c);
  }

  /** The sequence algebra of copying a prefix `q` through, kept apart from `ReplaceAll`. */
  lemma PrefixCopied(s: string, q: string, r: string, y: string)
    requires 1 <= |q| && q <= s
    requires r == [s[0]] + (q[1..] + y)
    ensures q <= r
  {
    assert r == q + y by { assert [s[0]] + q[1..] == q; }
  }

  /** A placeholder `{k}` at the front of `s` is copied through by the step for `i`. */
  lemma SurvivesAtFront(s: string, i: nat, k: nat, v: string)
    requires !(Placeholder(i) <= s) && Placeholder(k) <= s
    ensures Placeholder(k) <= ReplaceAll(s, Placeholder(i), v)
  {
    var p, q := Placeholder(i), Placeholder(k);
    var w := s[|q|..];
    assert s[1..] == q[1..] + w;
    ReplaceAllMiss(s, p, v);
    ReplaceAllPrefix(q[1..], w, p, v);
    PrefixCopied(s, q, ReplaceAll(s, p, v), ReplaceAll(w, p, v));
  }

  /**
    An occurrence of placeholder `k` survives the replacement of a different
    placeholder `i`, whatever the replacement text is.
   */
  lemma {:induction false} OtherPlaceholderSurvives(s: string, i: nat, k: nat, v: string)
    requires i != k && Contains(s, Placeholder(k))
    ensures Contains(ReplaceAll(s, Placeholder(i), v), Placeholder(k))
    decreases |s|
  {
    var p, q := Placeholder(i), Placeholder(k);
    var b :| OccursAt(s, q, b);
    OccursAtFront(s, p);
    if p <= s {
      // the match of `p` at 0 cannot overlap the occurrence of `q`
      if b < |p| {
        PlaceholdersDisjoint(s, i, 0, k, b);
        assert false;
      }
      OccursAtInSuffix(s, q, b, |p|);
      OtherPlaceholderSurvives(s[|p|..], i, k, v);
      ReplaceAllHit(s, p, v);
      ContainsAfterPrefix(v, ReplaceAll(s[|p|..], p, v), q);
    } else if b == 0 {
      OccursAtFront(s, q);
      SurvivesAtFront(s, i, k, v);
      OccursAtFront(ReplaceAll(s, p, v), q);
    } else {
      OccursAtInSuffix(s, q, b, 1);
      OtherPlaceholderSurvives(s[1..], i, k, v);
      ReplaceAllMiss(s, p, v);
      ContainsAfterPrefix([s[0]], ReplaceAll(s[1..], p, v), q);
    }
  }

  /**
    The text after substituting `values[0]`, ..., `values[|values| - 1]` in turn: a
    left fold of `ReplaceAll` over the values, each step working on the previous
    step's output.
   */
  function Populated(template: string, values: seq<string>): string
    decreases |values|
  {
    if values == [] then template
    else
      var n := |values| - 1;
      ReplaceAll(Populated(template, values[..n]), Placeholder(n), values[n])
  }

  /** `populateTemplate(template, values...)`. */
  method PopulateTemplate(template: string, values: seq<string>) returns (r: string)
    ensures r == Populated(template, values)
  {
    r := template;
    for i := 0 to |values|
      invariant r == Populated(template, values[..i])
    {
      r := ReplaceAll(r, Placeholder(i), values[i]);
      assert values[..i + 1][..i] == values[..i];
    }
    assert values[..|values|] == values;
  }

  /** With no values the template comes back as it is. */
  lemma PopulatedNoValues(template: string)
    ensures Populated(template, []) == template
  {
  }

  /**
    Substitution happens strictly in index order: adding one more value applies
    one more replacement, of its own placeholder, to the previous result.
   */
  lemma PopulatedStep(template: string, values: seq<string>, v: string)
    ensures Populated(template, values + [v])
         == ReplaceAll(Populated(template, values), Placeholder(|values|), v)
  {
    assert (values + [v])[..|values|] == values;
  }

  /** A template without `{` holds no placeholder and comes back unchanged. */
  lemma {:induction false} PopulatedWithoutBrace(template: string, values: seq<string>)
    requires '{' !in template
    ensures Populated(template, values) == template
    decreases |values|
  {
    if values != [] {
      var n := |values| - 1;
      PopulatedWithoutBrace(template, values[..n]);
      ReplaceAllWithoutFirstChar(template, Placeholder(n), values[n]);
    }
  }

  /**
    No arity check: an occurrence of a placeholder `{k}` with `k` at or beyond the
    number of values is still present in the result.
   */
  lemma {:induction false} UnmatchedPlaceholderKept(template: string, values: seq<string>, k: nat)
    requires k >= |values| && Contains(template, Placeholder(k))
    ensures Contains(Populated(template, values), Placeholder(k))
    decreases |values|
  {
    if values != [] {
      var n := |values| - 1;
      UnmatchedPlaceholderKept(template, values[..n], k);
      OtherPlaceholderSurvives(Populated(template, values[..n]), n, k, values[n]);
    }
  }

  /** A template that is just `{k}`, with `k` beyond the values, is returned verbatim. */
  lemma {:induction false} ExcessPlaceholderVerbatim(values: seq<string>, k: nat)
    requires k >= |values|
    ensures Populated(Placeholder(k), values) == Placeholder(k)
    decreases |values|
  {
    if values != [] {
      var n := |values| - 1;
      ExcessPlaceholderVerbatim(values[..n], k);
      OtherPlaceholderUnchanged(k, n, values[n]);
    }
  }

  /** A template that is just `{i}` becomes `values[i]` when that value has no `{`. */
  lemma {:induction false} PlaceholderFilled(values: seq<string>, i: nat)
    requires i < |values| && '{' !in values[i]
    ensures Populated(Placeholder(i), values) == values[i]
    decreases |values|
  {
    var n := |values| - 1;
    var init := values[..n];
    if i == n {
      ExcessPlaceholderVerbatim(init, i);
      ReplaceAllWhole(Placeholder(i), values[i]);
    } else {
      PlaceholderFilled(init, i);
      ReplaceAllWithoutFirstChar(values[i], Placeholder(n), values[n]);
    }
  }

  /** The result after the first `n` values: one step more than after `n - 1` of them. */
  lemma PopulatedPrefixStep(template: string, values: seq<string>, n: nat)
    requires 0 < n <= |values|
    ensures Populated(template, values[..n])
         == ReplaceAll(Populated(template, values[..n - 1]), Placeholder(n - 1), values[n - 1])
  {
    assert values[..n][..n - 1] == values[..n - 1];
  }

  /**
    An occurrence of `{k}` present after the first `m` steps is still present after
    any later step `n` up to `k`: only the step for `k` itself can remove it.
   */
  lemma {:induction false} PlaceholderKeptUntilItsStep(template: string, values: seq<string>, k: nat, m: nat, n: nat)
    requires m <= n <= k && n <= |values|
    requires Contains(Populated(template, values[..m]), Placeholder(k))
    ensures Contains(Populated(template, values[..n]), Placeholder(k))
    decreases n
  {
    if m < n {
      PlaceholderKeptUntilItsStep(template, values, k, m, n - 1);
      PopulatedPrefixStep(template, values, n);
      OtherPlaceholderSurvives(Populated(template, values[..n - 1]), n - 1, k, values[n - 1]);
    }
  }

  /**
    Substitution works on the text produced so far, so a value holding a later
    placeholder `{j}` is substituted again at step `j`: when the template holds
    `{i}` and `values[i]` holds `{j}`, `i < j`, then `{j}` is present just before
    step `j`, and `values[j]` is present after it.
   */
  lemma LaterPlaceholderInValueSubstituted(template: string, values: seq<string>, i: nat, j: nat)
    requires i < j < |values|
    requires Contains(template, Placeholder(i)) && Contains(values[i], Placeholder(j))
    ensures Contains(Populated(template, values[..j]), Placeholder(j))
    ensures Contains(Populated(template, values[..j + 1]), values[j])
  {
    // `{i}` reaches step `i`
    UnmatchedPlaceholderKept(template, values[..i], i);
    // step `i` writes `values[i]`, and with it `{j}`
    PopulatedPrefixStep(template, values, i + 1);
    ReplacementOccurs(Populated(template, values[..i]), Placeholder(i), values[i]);
    ContainsTransitive(Populated(template, values[..i + 1]), values[i], Placeholder(j));
    // `{j}` reaches step `j`, which writes `values[j]`
    PlaceholderKeptUntilItsStep(template, values, j, i + 1, j);
    PopulatedPrefixStep(template, values, j + 1);
    ReplacementOccurs(Populated(template, values[..j]), Placeholder(j), values[j]);
  }

  /**
    A value with no placeholder of a later step is never substituted again: the
    template `{i}` becomes exactly `values[i]`. This covers a value holding an
    earlier placeholder, or one beyond the values.
   */
  lemma {:induction false} PlaceholderInValueKept(values: seq<string>, i: nat)
    requires i < |values|
    requires forall n :: i < n < |values| ==> !Contains(values[i], Placeholder(n))
    ensures Populated(Placeholder(i), values) == values[i]
    decreases |values|
  {
    var n := |values| - 1;
    var init := values[..n];
    if i == n {
      ExcessPlaceholderVerbatim(init, i);
      ReplaceAllWhole(Placeholder(i), values[i]);
    } else {
      assert init[i] == values[i];
      PlaceholderInValueKept(init, i);
      ReplaceAllNoMatch(values[i], Placeholder(n), values[n]);
    }
  }

  /**
    A chain of two placeholders is resolved: the template `{i}` with
    `values[i] == "{j}"`, `i < j`, ends up as `values[j]`.
   */
  lemma {:induction false} ChainedPlaceholderResolved(values: seq<string>, i: nat, j: nat)
    requires i < j < |values| && values[i] == Placeholder(j) && '{' !in values[j]
    ensures Populated(Placeholder(i), values) == values[j]
    decreases |values|
  {
    var n := |values| - 1;
    var init := values[..n];
    if j == n {
      forall m | i < m < |init| ensures !Contains(init[i], Placeholder(m)) {
        PlaceholderOnlyContainsItself(j, m);
      }
      PlaceholderInValueKept(init, i);
      ReplaceAllWhole(Placeholder(j), values[j]);
    } else {
      ChainedPlaceholderResolved(init, i, j);
      ReplaceAllWithoutFirstChar(values[j], Placeholder(n), values[n]);
    }
  }

  lemma ExampleResubstitution()
    ensures Populated("{0}", ["{1}", "x"]) == "x"
  {
    assert Placeholder(0) == "{0}" && Placeholder(1) == "{1}";
    ChainedPlaceholderResolved(["{1}", "x"], 0, 1);
  }

  lemma ExampleMissingValue()
    ensures Populated("{1}", ["a"]) == "{1}"
  {
    assert Placeholder(1) == "{1}";
    ExcessPlaceholderVerbatim(["a"], 1);
  }
}
