/**
  The e-mail address check of the mail utility. The source matches the whole input
  against

    ^[a-zA-Z0-9_+&*-]+(?:\.[a-zA-Z0-9_+&*-]+)*@(?:[a-zA-Z0-9-]+\.)+[a-zA-Z]{2,7}$

  This module writes that language down structurally (split at `@`, then at `.`)
  as `CheckEmail`, and proves it equal to a character-level description of an
  accepted address, `AddressShape`, from which the properties callers rely on
  follow.
 */
module MailAddress {
  import opened JavaString

  predicate IsAsciiLetter(c: char) {
    'a' <= c <= 'z' || 'A' <= c <= 'Z'
  }

  /** The class `[a-zA-Z0-9_+&*-]` of the local part. */
  predicate IsLocalChar(c: char) {
    IsAsciiLetter(c) || IsDigit(c) || c == '_' || c == '+' || c == '&' || c == '*' || c == '-'
  }

  /** The class `[a-zA-Z0-9-]` of a domain label. */
  predicate IsLabelChar(c: char) {
    IsAsciiLetter(c) || IsDigit(c) || c == '-'
  }

  /** Which of the two character classes a dot-separated run is drawn from. */
  datatype CharClass = LocalChars | LabelChars

  predicate InClass(c: char, cls: CharClass) {
    match cls
    case LocalChars => IsLocalChar(c)
    case LabelChars => IsLabelChar(c)
  }

  predicate AllInClass(s: string, cls: CharClass) {
    forall k :: 0 <= k < |s| ==> InClass(s[k], cls)
  }

  /** The pieces of `s` between occurrences of `sep`, in order (always at least one). */
  function SplitOn(s: string, sep: char): (parts: seq<string>)
    ensures |parts| >= 1
    ensures forall k :: 0 <= k < |parts| ==> sep !in parts[k]
    decreases |s|
  {
    if s == [] then [[]]
    else
      var rest := SplitOn(s[1..], sep);
      if s[0] == sep then [[]] + rest else [[s[0]] + rest[0]] + rest[1..]
  }

  /** Puts pieces back together with `sep` between neighbours. */
  function Join(parts: seq<string>, sep: char): string
    requires |parts| >= 1
    decreases |parts|
  {
    if |parts| == 1 then parts[0] else parts[0] + [sep] + Join(parts[1..], sep)
  }

  /** Every piece is non-empty and drawn from the class. */
  predicate NonEmptyAtoms(parts: seq<string>, cls: CharClass) {
    forall k :: 0 <= k < |parts| ==> parts[k] != [] && AllInClass(parts[k], cls)
  }

  /** The local part `X+(?:\.X+)*` for `X = [a-zA-Z0-9_+&*-]`. */
  predicate IsLocalPart(s: string) {
    NonEmptyAtoms(SplitOn(s, '.'), LocalChars)
  }

  /** The top-level domain `[a-zA-Z]{2,7}`. */
  predicate IsTopLevel(s: string) {
    2 <= |s| <= 7 && forall k :: 0 <= k < |s| ==> IsAsciiLetter(s[k])
  }

  /** The domain `(?:[a-zA-Z0-9-]+\.)+[a-zA-Z]{2,7}`: labels, each followed by a dot, then the top level. */
  predicate IsDomain(s: string) {
    var labels := SplitOn(s, '.');
    |labels| >= 2 && NonEmptyAtoms(labels[..|labels| - 1], LabelChars) && IsTopLevel(labels[|labels| - 1])
  }

  /** `checkEmail(email)`: the whole input is a local part, `@`, and a domain. */
  predicate CheckEmail(email: string) {
    var parts := SplitOn(email, '@');
    |parts| == 2 && IsLocalPart(parts[0]) && IsDomain(parts[1])
  }

  // ----- a character-level description of the same language -----

  /** Two dots in a row at `k`. */
  predicate DoubleDotAt(s: string, k: int)
    requires 0 <= k && k + 1 < |s|
  {
    s[k] == '.' && s[k + 1] == '.'
  }

  /**
    `s` is a non-empty run of class characters and dots that neither starts nor
    ends with a dot and has no two dots in a row.
   */
  predicate DotSeparated(s: string, cls: CharClass) {
    && |s| > 0
    && s[0] != '.'
    && s[|s| - 1] != '.'
    && (forall k :: 0 <= k < |s| - 1 ==> !DoubleDotAt(s, k))
    && (forall k :: 0 <= k < |s| ==> s[k] == '.' || InClass(s[k], cls))
  }

  /** The first index of the character `c` in `s`. */
  function IndexOfChar(s: string, c: char): (r: nat)
    requires c in s
    ensures r < |s| && s[r] == c
    ensures forall k :: 0 <= k < r ==> s[k] != c
    decreases |s|
  {
    if s[0] == c then 0 else 1 + IndexOfChar(s[1..], c)
  }

  /** The last index of the character `c` in `s`. */
  function LastIndexOfChar(s: string, c: char): (r: nat)
    requires c in s
    ensures r < |s| && s[r] == c
    ensures forall k :: r < k < |s| ==> s[k] != c
    decreases |s|
  {
    if s[|s| - 1] == c then |s| - 1 else LastIndexOfChar(s[..|s| - 1], c)
  }

  /** A dot, labels before the last dot, and a top-level domain after it. */
  predicate DomainShape(d: string) {
    '.' in d && var p := LastIndexOfChar(d, '.'); DotSeparated(d[..p], LabelChars) && IsTopLevel(d[p + 1..])
  }

  /** Exactly one `@`, a well-formed local part before it and a well-formed domain after it. */
  predicate AddressShape(s: string) {
    '@' in s && var a := IndexOfChar(s, '@');
    '@' !in s[a + 1..] && DotSeparated(s[..a], LocalChars) && DomainShape(s[a + 1..])
  }

  // ----- SplitOn -----

  /** Joining the pieces with the separator gives back the input. */
  lemma {:induction false} JoinSplit(s: string, sep: char)
    ensures Join(SplitOn(s, sep), sep) == s
    decreases |s|
  {
    if s != [] {
      var rest := SplitOn(s[1..], sep);
      JoinSplit(s[1..], sep);
      if s[0] == sep {
        assert SplitOn(s, sep)[1..] == rest;
      } else {
        var parts := SplitOn(s, sep);
        assert parts[1..] == rest[1..];
        if |rest| > 1 {
          assert rest == [rest[0]] + rest[1..];
        }
      }
    }
  }

  lemma {:induction false} SplitWithoutSep(w: string, sep: char)
    requires sep !in w
    ensures SplitOn(w, sep) == [w]
    decreases |w|
  {
    if w != [] {
      SplitWithoutSep(w[1..], sep);
      assert [w[0]] + w[1..] == w;
    }
  }

  /** Splitting at a separator splits the pieces there. */
  lemma {:induction false} SplitAround(u: string, w: string, sep: char)
    ensures SplitOn(u + [sep] + w, sep) == SplitOn(u, sep) + SplitOn(w, sep)
    decreases |u|
  {
    var s := u + [sep] + w;
    if u == [] {
      assert s[1..] == w;
    } else {
      assert s[1..] == u[1..] + [sep] + w;
      SplitAround(u[1..], w, sep);
    }
  }

  /** A separator in the input gives at least two pieces. */
  lemma SplitWithSep(w: string, sep: char)
    requires sep in w
    ensures |SplitOn(w, sep)| >= 2
  {
    var j := IndexOfChar(w, sep);
    assert w == w[..j] + [sep] + w[j + 1..];
    SplitAround(w[..j], w[j + 1..], sep);
  }

  /** The first piece is empty exactly when the input is empty or starts with the separator. */
  lemma FirstPieceEmpty(s: string, sep: char)
    ensures SplitOn(s, sep)[0] == [] <==> (s == [] || s[0] == sep)
  {
  }

  // ----- the two descriptions agree -----

  /** Pieces of `c + t` when `t` does not start with a dot: `c` joins the first piece of `t`. */
  lemma AtomsExtend(s: string, cls: CharClass)
    requires |s| >= 2 && s[0] != '.' && s[1] != '.'
    ensures NonEmptyAtoms(SplitOn(s, '.'), cls)
        <==> InClass(s[0], cls) && NonEmptyAtoms(SplitOn(s[1..], '.'), cls)
  {
    var parts, rest := SplitOn(s, '.'), SplitOn(s[1..], '.');
    assert parts == [[s[0]] + rest[0]] + rest[1..];
    FirstPieceEmpty(s[1..], '.');
    if InClass(s[0], cls) && NonEmptyAtoms(rest, cls) {
      forall k | 0 <= k < |parts| ensures parts[k] != [] && AllInClass(parts[k], cls) {
        if k > 0 { assert parts[k] == rest[k]; }
      }
    }
    if NonEmptyAtoms(parts, cls) {
      assert parts[0] == [s[0]] + rest[0];
      assert AllInClass(parts[0], cls);
      assert InClass(s[0], cls) by { assert parts[0][0] == s[0]; }
      forall k | 0 <= k < |rest| ensures rest[k] != [] && AllInClass(rest[k], cls) {
        if k == 0 {
          forall m | 0 <= m < |rest[0]| ensures InClass(rest[0][m], cls) {
            assert parts[0][m + 1] == rest[0][m];
          }
        } else {
          assert rest[k] == parts[k];
        }
      }
    }
  }

  lemma ShapeExtend(s: string, cls: CharClass)
    requires |s| >= 2 && s[0] != '.' && s[1] != '.'
    ensures DotSeparated(s, cls) <==> InClass(s[0], cls) && DotSeparated(s[1..], cls)
  {
    var t := s[1..];
    if DotSeparated(s, cls) {
      forall k | 0 <= k < |t| - 1 ensures !DoubleDotAt(t, k) {
        assert t[k] == s[k + 1] && t[k + 1] == s[k + 2];
        assert !DoubleDotAt(s, k + 1);
      }
      forall k | 0 <= k < |t| ensures t[k] == '.' || InClass(t[k], cls) {
        assert t[k] == s[k + 1];
      }
    }
    if InClass(s[0], cls) && DotSeparated(t, cls) {
      forall k | 0 <= k < |s| - 1 ensures !DoubleDotAt(s, k) {
        if k > 0 {
          assert s[k] == t[k - 1] && s[k + 1] == t[k];
          assert !DoubleDotAt(t, k - 1);
        }
      }
      forall k | 0 <= k < |s| ensures s[k] == '.' || InClass(s[k], cls) {
        if k > 0 { assert s[k] == t[k - 1]; }
      }
    }
  }

  /** Pieces of `c + "." + u`: the one-character piece `c`, then the pieces of `u`. */
  lemma AtomsAfterDot(s: string, cls: CharClass)
    requires |s| >= 2 && s[0] != '.' && s[1] == '.'
    ensures NonEmptyAtoms(SplitOn(s, '.'), cls)
        <==> InClass(s[0], cls) && NonEmptyAtoms(SplitOn(s[2..], '.'), cls)
  {
    var parts, tail := SplitOn(s, '.'), SplitOn(s[2..], '.');
    assert s[1..][1..] == s[2..];
    assert SplitOn(s[1..], '.') == [[]] + tail;
    assert [s[0]] + [] == [s[0]];
    assert parts == [[s[0]]] + tail;
    if InClass(s[0], cls) && NonEmptyAtoms(tail, cls) {
      forall k | 0 <= k < |parts| ensures parts[k] != [] && AllInClass(parts[k], cls) {
        if k > 0 { assert parts[k] == tail[k - 1]; }
      }
    }
    if NonEmptyAtoms(parts, cls) {
      assert AllInClass(parts[0], cls);
      assert InClass(s[0], cls) by { assert parts[0][0] == s[0]; }
      forall k | 0 <= k < |tail| ensures tail[k] != [] && AllInClass(tail[k], cls) {
        assert tail[k] == parts[k + 1];
      }
    }
  }

  lemma ShapeAfterDot(s: string, cls: CharClass)
    requires |s| >= 2 && s[0] != '.' && s[1] == '.'
    ensures DotSeparated(s, cls) <==> InClass(s[0], cls) && DotSeparated(s[2..], cls)
  {
    var u := s[2..];
    if DotSeparated(s, cls) {
      assert |s| > 2 && !DoubleDotAt(s, 1);
      assert u[0] == s[2];
      assert u[|u| - 1] == s[|s| - 1];
      forall k | 0 <= k < |u| - 1 ensures !DoubleDotAt(u, k) {
        assert u[k] == s[k + 2] && u[k + 1] == s[k + 3];
        assert !DoubleDotAt(s, k + 2);
      }
      forall k | 0 <= k < |u| ensures u[k] == '.' || InClass(u[k], cls) {
        assert u[k] == s[k + 2];
      }
    }
    if InClass(s[0], cls) && DotSeparated(u, cls) {
      forall k | 0 <= k < |s| - 1 ensures !DoubleDotAt(s, k) {
        if k > 1 {
          assert s[k] == u[k - 2] && s[k + 1] == u[k - 1];
          assert !DoubleDotAt(u, k - 2);
        }
        if k == 1 { assert s[k + 1] == u[0]; }
      }
      forall k | 0 <= k < |s| ensures s[k] == '.' || InClass(s[k], cls) {
        if k > 1 { assert s[k] == u[k - 2]; }
      }
    }
  }

  /** `X+(?:\.X+)*` is exactly a dot-separated run of class characters. */
  lemma {:induction false} DotAtomsIff(s: string, cls: CharClass)
    ensures NonEmptyAtoms(SplitOn(s, '.'), cls) <==> DotSeparated(s, cls)
    decreases |s|
  {
    if s == [] || s[0] == '.' {
      FirstPieceEmpty(s, '.');
    } else if |s| == 1 {
      var parts := SplitOn(s, '.');
      assert parts == [s] by {
        assert s[1..] == [];
        assert [s[0]] + [] == s;
      }
      assert NonEmptyAtoms(parts, cls) <==> InClass(s[0], cls) by {
        assert parts[0] == s;
      }
      assert DotSeparated(s, cls) <==> InClass(s[0], cls);
    } else if s[1] != '.' {
      AtomsExtend(s, cls);
      ShapeExtend(s, cls);
      DotAtomsIff(s[1..], cls);
    } else {
      AtomsAfterDot(s, cls);
      ShapeAfterDot(s, cls);
      DotAtomsIff(s[2..], cls);
    }
  }

  /** `(?:[a-zA-Z0-9-]+\.)+[a-zA-Z]{2,7}` is exactly `DomainShape`. */
  lemma DomainIff(d: string)
    ensures IsDomain(d) <==> DomainShape(d)
  {
    if '.' in d {
      var p := LastIndexOfChar(d, '.');
      assert d == d[..p] + ['.'] + d[p + 1..];
      SplitAround(d[..p], d[p + 1..], '.');
      SplitWithoutSep(d[p + 1..], '.');
      var labels := SplitOn(d, '.');
      assert labels[..|labels| - 1] == SplitOn(d[..p], '.');
      DotAtomsIff(d[..p], LabelChars);
    } else {
      SplitWithoutSep(d, '.');
    }
  }

  /** The regular language the source matches is exactly `AddressShape`. */
  lemma CheckEmailIff(s: string)
    ensures CheckEmail(s) <==> AddressShape(s)
  {
    if '@' in s {
      var a := IndexOfChar(s, '@');
      assert s == s[..a] + ['@'] + s[a + 1..];
      SplitAround(s[..a], s[a + 1..], '@');
      SplitWithoutSep(s[..a], '@');
      if '@' in s[a + 1..] {
        SplitWithSep(s[a + 1..], '@');
      } else {
        SplitWithoutSep(s[a + 1..], '@');
        DotAtomsIff(s[..a], LocalChars);
        DomainIff(s[a + 1..]);
      }
    } else {
      SplitWithoutSep(s, '@');
    }
  }

  // ----- what an accepted address looks like -----

  /** An accepted address has exactly one `@`, with something before it and after it. */
  lemma AcceptedHasOneAt(s: string)
    requires CheckEmail(s)
    ensures '@' in s
    ensures 0 < IndexOfChar(s, '@') < |s| - 1
    ensures forall k :: 0 <= k < |s| && s[k] == '@' ==> k == IndexOfChar(s, '@')
  {
    CheckEmailIff(s);
  }

  /**
    The local part of an accepted address neither starts nor ends with `.`, has no
    `..`, and otherwise uses only `[a-zA-Z0-9_+&*-]`.
   */
  lemma AcceptedLocalPart(s: string)
    requires CheckEmail(s)
    ensures '@' in s
    ensures var a := IndexOfChar(s, '@');
      && 0 < a
      && s[0] != '.' && s[a - 1] != '.'
      && (forall k :: 0 <= k < a - 1 ==> !DoubleDotAt(s, k))
      && (forall k :: 0 <= k < a ==> s[k] == '.' || IsLocalChar(s[k]))
  {
    CheckEmailIff(s);
    DotSeparatedPrefix(s, IndexOfChar(s, '@'), LocalChars);
  }

  /** What `DotSeparated` says about a prefix `d[..p]`, character by character. */
  lemma DotSeparatedPrefix(d: string, p: nat, cls: CharClass)
    requires p <= |d| && DotSeparated(d[..p], cls)
    ensures 0 < p && d[0] != '.' && d[p - 1] != '.'
    ensures forall k :: 0 <= k < p - 1 ==> !DoubleDotAt(d, k)
    ensures forall k :: 0 <= k < p ==> d[k] == '.' || InClass(d[k], cls)
  {
    var l := d[..p];
    assert d[0] == l[0] && d[p - 1] == l[p - 1];
    forall k | 0 <= k < p - 1 ensures !DoubleDotAt(d, k) {
      assert d[k] == l[k] && d[k + 1] == l[k + 1];
      assert !DoubleDotAt(l, k);
    }
    forall k | 0 <= k < p ensures d[k] == '.' || InClass(d[k], cls) {
      assert d[k] == l[k];
    }
  }

  /** What `IsTopLevel` says about a suffix `d[p + 1..]`, character by character. */
  lemma TopLevelSuffix(d: string, p: nat)
    requires p < |d| && IsTopLevel(d[p + 1..])
    ensures 2 <= |d| - (p + 1) <= 7
    ensures forall k :: p < k < |d| ==> IsAsciiLetter(d[k])
  {
    var top := d[p + 1..];
    forall k | p < k < |d| ensures IsAsciiLetter(d[k]) {
      assert d[k] == top[k - p - 1];
    }
  }

  /** `DomainShape` character by character, for the last dot at `p`. */
  lemma DomainFacts(d: string, p: nat)
    requires DomainShape(d) && p == LastIndexOfChar(d, '.')
    ensures 2 <= |d| - (p + 1) <= 7
    ensures forall k :: p < k < |d| ==> IsAsciiLetter(d[k])
    ensures 0 < p && d[0] != '.' && d[p - 1] != '.'
    ensures forall k :: 0 <= k < p - 1 ==> !DoubleDotAt(d, k)
    ensures forall k :: 0 <= k < p ==> d[k] == '.' || IsLabelChar(d[k])
  {
    DotSeparatedPrefix(d, p, LabelChars);
    TopLevelSuffix(d, p);
    forall k | 0 <= k < p ensures d[k] == '.' || IsLabelChar(d[k]) {
      assert d[k] == '.' || InClass(d[k], LabelChars);
    }
  }

  /** The domain facts, read off the character-level description of the domain. */
  lemma AddressDomain(s: string)
    requires '@' in s && DomainShape(s[IndexOfChar(s, '@') + 1..])
    ensures '.' in s[IndexOfChar(s, '@') + 1..]
    ensures var d := s[IndexOfChar(s, '@') + 1..];
      var p := LastIndexOfChar(d, '.');
      && 2 <= |d| - (p + 1) <= 7
      && (forall k :: p < k < |d| ==> IsAsciiLetter(d[k]))
      && 0 < p && d[0] != '.' && d[p - 1] != '.'
      && (forall k :: 0 <= k < p - 1 ==> !DoubleDotAt(d, k))
      && (forall k :: 0 <= k < p ==> d[k] == '.' || IsLabelChar(d[k]))
  {
    var d := s[IndexOfChar(s, '@') + 1..];
    DomainFacts(d, LastIndexOfChar(d, '.'));
  }

  /**
    The domain of an accepted address contains a dot; after the last dot come 2 to
    7 ASCII letters; before it come non-empty labels over `[a-zA-Z0-9-]` separated
    by single dots.
   */
  lemma AcceptedDomain(s: string)
    requires CheckEmail(s)
    ensures '@' in s && '.' in s[IndexOfChar(s, '@') + 1..]
    ensures var d := s[IndexOfChar(s, '@') + 1..];
      var p := LastIndexOfChar(d, '.');
      && 2 <= |d| - (p + 1) <= 7
      && (forall k :: p < k < |d| ==> IsAsciiLetter(d[k]))
      && 0 < p && d[0] != '.' && d[p - 1] != '.'
      && (forall k :: 0 <= k < p - 1 ==> !DoubleDotAt(d, k))
      && (forall k :: 0 <= k < p ==> d[k] == '.' || IsLabelChar(d[k]))
  {
    CheckEmailIff(s);
    assert AddressShape(s);
    AddressDomain(s);
  }

  /**
    Since the match must cover the whole input, every character of an accepted
    address is visible ASCII from the two classes, `.` or `@`: no whitespace, no
    line terminator, no control or non-ASCII character; and it has at least six.
   */
  lemma AcceptedCharacters(s: string)
    requires CheckEmail(s)
    ensures |s| >= 6
    ensures forall k :: 0 <= k < |s| ==> IsLocalChar(s[k]) || s[k] == '.' || s[k] == '@'
    ensures forall k :: 0 <= k < |s| ==> '!' <= s[k] <= '~'
  {
    AcceptedLocalPart(s);
    AcceptedDomain(s);
    var a := IndexOfChar(s, '@');
    var d := s[a + 1..];
    forall k | 0 <= k < |s| ensures IsLocalChar(s[k]) || s[k] == '.' || s[k] == '@' {
      if k > a {
        assert s[k] == d[k - a - 1];
      }
    }
  }

  /** The empty string, and any input with whitespace or a non-ASCII character, is rejected. */
  lemma RejectsInvisible(s: string)
    requires s == [] || exists k :: 0 <= k < |s| && (s[k] <= ' ' || s[k] > '~')
    ensures !CheckEmail(s)
  {
    if CheckEmail(s) {
      AcceptedCharacters(s);
    }
  }

  // ----- examples -----

  lemma SplitTwo(u: string, w: string, sep: char)
    requires sep !in u && sep !in w
    ensures SplitOn(u + [sep] + w, sep) == [u, w]
  {
    SplitAround(u, w, sep);
    SplitWithoutSep(u, sep);
    SplitWithoutSep(w, sep);
  }

  lemma ExampleAccepted()
    ensures CheckEmail("a.b@c.de")
  {
    assert "a.b@c.de" == "a.b" + ['@'] + "c.de";
    SplitTwo("a.b", "c.de", '@');
    ExampleLocalPart();
    ExampleDomain();
  }

  lemma ExampleLocalPart()
    ensures IsLocalPart("a.b")
  {
    assert "a.b" == "a" + ['.'] + "b";
    SplitTwo("a", "b", '.');
    assert AllInClass("a", LocalChars) && AllInClass("b", LocalChars);
  }

  lemma ExampleDomain()
    ensures IsDomain("c.de")
  {
    assert "c.de" == "c" + ['.'] + "de";
    SplitTwo("c", "de", '.');
    assert AllInClass("c", LabelChars);
    assert ["c", "de"][..1] == ["c"];
  }

  lemma ExampleShortTopLevel()
    ensures !CheckEmail("a@b.c")
  {
    assert "a@b.c" == "a" + ['@'] + "b.c";
    SplitTwo("a", "b.c", '@');
    assert "b.c" == "b" + ['.'] + "c";
    SplitTwo("b", "c", '.');
  }

  lemma ExampleDoubleDot()
    ensures !CheckEmail("a..b@c.de")
  {
    assert "a..b@c.de" == "a..b" + ['@'] + "c.de";
    SplitTwo("a..b", "c.de", '@');
    assert "a..b" == "a" + ['.'] + ".b";
    SplitAround("a", ".b", '.');
    SplitWithoutSep("a", '.');
    FirstPieceEmpty(".b", '.');
    assert SplitOn("a..b", '.')[1] == [];
  }

  lemma ExampleLongTopLevel()
    ensures !CheckEmail("a@b.cdefghij")
  {
    assert "a@b.cdefghij" == "a" + ['@'] + "b.cdefghij";
    SplitTwo("a", "b.cdefghij", '@');
    assert "b.cdefghij" == "b" + ['.'] + "cdefghij";
    SplitTwo("b", "cdefghij", '.');
  }

  lemma ExampleTwoAts()
    ensures !CheckEmail("a@@c.de")
  {
    assert "a@@c.de" == "a" + ['@'] + "@c.de";
    SplitAround("a", "@c.de", '@');
    SplitWithSep("@c.de", '@');
  }
}
