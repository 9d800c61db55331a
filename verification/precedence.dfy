/** Version precedence, section 11 of Semantic Versioning 2.0.0, computed the
    way `semver.Version.Compare` does it; build metadata never takes part. */
module Precedence {
  import opened SemVer

  /** Three-way comparison of numbers: -1, 0 or 1. */
  function CompareNat(a: nat, b: nat): (r: int)
    ensures r == 0 <==> a == b
    ensures r == 1 <==> a > b
    ensures r == -1 <==> a < b
  {
    if a == b then 0 else if a > b then 1 else -1
  }

  /** Go's string ordering: lexicographic, a proper prefix sorting first. */
  function CompareText(a: string, b: string): int
  {
    if |a| == 0 || |b| == 0 then CompareNat(|a|, |b|)
    else if a[0] != b[0] then (if a[0] < b[0] then -1 else 1)
    else CompareText(a[1..], b[1..])
  }

  /** `PRVersion.Compare`: numeric identifiers sort below alphanumeric ones
      (section 11.4.3), numbers numerically, text lexically. */
  function CompareIdentifier(a: Identifier, b: Identifier): int
  {
    match (a, b)
    case (Num(x), Num(y)) => CompareNat(x, y)
    case (Num(_), Alpha(_)) => -1
    case (Alpha(_), Num(_)) => 1
    case (Alpha(x), Alpha(y)) => CompareText(x, y)
  }

  /** Field-by-field comparison of two pre-release lists; when one is a
      prefix of the other the longer one is greater (section 11.4.4). */
  function CompareIdentifiers(a: seq<Identifier>, b: seq<Identifier>): int
  {
    if |a| == 0 || |b| == 0 then CompareNat(|a|, |b|)
    else
      var c := CompareIdentifier(a[0], b[0]);
      if c != 0 then c else CompareIdentifiers(a[1..], b[1..])
  }

  /** `Version.Compare`: major, minor, patch numerically, then a version
      without pre-release above one with (section 11.3), then the
      pre-release lists. */
  function Compare(a: Version, b: Version): (r: int)
    ensures r == -1 || r == 0 || r == 1
    ensures r == 0 <==> SamePrecedence(a, b)
  {
    CompareIdentifiersLaws(a.pre, b.pre);
    if a.major != b.major then CompareNat(a.major, b.major)
    else if a.minor != b.minor then CompareNat(a.minor, b.minor)
    else if a.patch != b.patch then CompareNat(a.patch, b.patch)
    else if |a.pre| == 0 && |b.pre| == 0 then 0
    else if |a.pre| == 0 then 1
    else if |b.pre| == 0 then -1
    else CompareIdentifiers(a.pre, b.pre)
  }

  /** `Version.GT`: strictly higher precedence. */
  predicate GT(a: Version, b: Version): (r: bool)
    ensures r ==> !SamePrecedence(a, b)
  {
    Compare(a, b) == 1
  }

  /** Equal precedence: everything but the build metadata agrees. */
  predicate SamePrecedence(a: Version, b: Version) {
    a.(build := []) == b.(build := [])
  }

  // ------------------------------------------------------------------ text

  lemma {:induction false} CompareTextLaws(a: string, b: string)
    ensures CompareText(a, b) in {-1, 0, 1}
    ensures CompareText(a, b) == -CompareText(b, a)
    ensures CompareText(a, b) == 0 <==> a == b
    decreases |a|
  {
    if |a| > 0 && |b| > 0 && a[0] == b[0] {
      CompareTextLaws(a[1..], b[1..]);
      if a[1..] == b[1..] {
        assert a == [a[0]] + a[1..] && b == [b[0]] + b[1..];
      }
    }
  }

  lemma {:induction false} CompareTextTransitive(a: string, b: string, c: string)
    requires CompareText(a, b) == 1 && CompareText(b, c) == 1
    ensures CompareText(a, c) == 1
    decreases |a|
  {
    if |c| > 0 && a[0] == b[0] && b[0] == c[0] {
      CompareTextTransitive(a[1..], b[1..], c[1..]);
    }
  }

  /** Section 11.4.2: text compares character by character, the first
      differing character deciding. */
  lemma {:induction false} TextOrder(common: string, x: char, y: char, s: string, t: string)
    requires x > y
    ensures CompareText(common + [x] + s, common + [y] + t) == 1
    decreases |common|
  {
    if |common| > 0 {
      assert (common + [x] + s)[1..] == common[1..] + [x] + s;
      assert (common + [y] + t)[1..] == common[1..] + [y] + t;
      TextOrder(common[1..], x, y, s, t);
    }
  }

  /** Text is greater than every proper prefix of it. */
  lemma {:induction false} LongerTextGreater(common: string, rest: string)
    requires |rest| > 0
    ensures CompareText(common + rest, common) == 1
    decreases |common|
  {
    if |common| > 0 {
      assert (common + rest)[1..] == common[1..] + rest;
      LongerTextGreater(common[1..], rest);
    }
  }

  // ----------------------------------------------------------- identifiers

  lemma CompareIdentifierLaws(a: Identifier, b: Identifier)
    ensures CompareIdentifier(a, b) in {-1, 0, 1}
    ensures CompareIdentifier(a, b) == -CompareIdentifier(b, a)
    ensures CompareIdentifier(a, b) == 0 <==> a == b
  {
    if a.Alpha? && b.Alpha? {
      CompareTextLaws(a.s, b.s);
    }
  }

  lemma CompareIdentifierTransitive(a: Identifier, b: Identifier, c: Identifier)
    requires CompareIdentifier(a, b) == 1 && CompareIdentifier(b, c) == 1
    ensures CompareIdentifier(a, c) == 1
  {
    if a.Alpha? && b.Alpha? && c.Alpha? {
      CompareTextTransitive(a.s, b.s, c.s);
    }
  }

  lemma {:induction false} CompareIdentifiersLaws(a: seq<Identifier>, b: seq<Identifier>)
    ensures CompareIdentifiers(a, b) in {-1, 0, 1}
    ensures CompareIdentifiers(a, b) == -CompareIdentifiers(b, a)
    ensures CompareIdentifiers(a, b) == 0 <==> a == b
    decreases |a|
  {
    if |a| > 0 && |b| > 0 {
      CompareIdentifierLaws(a[0], b[0]);
      if a[0] == b[0] {
        CompareIdentifiersLaws(a[1..], b[1..]);
        if a[1..] == b[1..] {
          assert a == [a[0]] + a[1..] && b == [b[0]] + b[1..];
        }
      }
    }
  }

  lemma {:induction false} CompareIdentifiersTransitive(a: seq<Identifier>, b: seq<Identifier>, c: seq<Identifier>)
    requires CompareIdentifiers(a, b) == 1 && CompareIdentifiers(b, c) == 1
    ensures CompareIdentifiers(a, c) == 1
    decreases |a|
  {
    if |c| > 0 {
      CompareIdentifierLaws(a[0], b[0]);
      CompareIdentifierLaws(b[0], c[0]);
      CompareIdentifierLaws(a[0], c[0]);
      if a[0] == b[0] && b[0] == c[0] {
        CompareIdentifiersTransitive(a[1..], b[1..], c[1..]);
      } else if a[0] == b[0] || b[0] == c[0] {
      } else {
        CompareIdentifierTransitive(a[0], b[0], c[0]);
      }
    }
  }

  // -------------------------------------------------------------- versions

  /** Comparison is three-valued, antisymmetric, and zero exactly on equal
      precedence. */
  lemma CompareLaws(a: Version, b: Version)
    ensures Compare(a, b) in {-1, 0, 1}
    ensures Compare(a, b) == -Compare(b, a)
    ensures Compare(a, b) == 0 <==> SamePrecedence(a, b)
  {
    CompareIdentifiersLaws(a.pre, b.pre);
  }

  lemma CompareTransitive(a: Version, b: Version, c: Version)
    requires GT(a, b) && GT(b, c)
    ensures GT(a, c)
  {
    if a.major == b.major == c.major && a.minor == b.minor == c.minor && a.patch == b.patch == c.patch
       && |a.pre| > 0 && |b.pre| > 0 && |c.pre| > 0 {
      CompareIdentifiersTransitive(a.pre, b.pre, c.pre);
    }
  }

  /** `GT` is a strict total order on precedence classes: irreflexive,
      asymmetric, transitive, and any two versions are related unless their
      precedence is the same. */
  lemma GreaterIsStrictOrder(a: Version, b: Version, c: Version)
    ensures !GT(a, a)
    ensures GT(a, b) ==> !GT(b, a)
    ensures GT(a, b) && GT(b, c) ==> GT(a, c)
    ensures GT(a, b) || GT(b, a) || SamePrecedence(a, b)
    ensures SamePrecedence(a, b) ==> !GT(a, b) && !GT(b, a)
  {
    CompareLaws(a, a);
    CompareLaws(a, b);
    if GT(a, b) && GT(b, c) {
      CompareTransitive(a, b, c);
    }
  }

  /** Major, minor and patch decide first, in that order (section 11.2):
      when the release numbers differ, the greater version is the one whose
      first differing number is larger. */
  lemma ReleaseNumbersOrdered(a: Version, b: Version)
    requires (a.major, a.minor, a.patch) != (b.major, b.minor, b.patch)
    ensures GT(a, b) <==>
      || a.major > b.major
      || (a.major == b.major && a.minor > b.minor)
      || (a.major == b.major && a.minor == b.minor && a.patch > b.patch)
  {
  }

  /** Identifier rules of section 11.4: numeric identifiers compare
      numerically, and a numeric identifier is below an alphanumeric one. */
  lemma IdentifierOrder(x: nat, y: nat, t: string)
    ensures CompareIdentifier(Num(x), Num(y)) == 1 <==> x > y
    ensures CompareIdentifier(Alpha(t), Num(x)) == 1
    ensures forall u :: CompareIdentifier(Alpha(t), Alpha(u)) == CompareText(t, u)
  {
  }

  /** Section 11.4.4: the first differing identifier decides. */
  lemma {:induction false} FirstDifferenceDecides(common: seq<Identifier>, x: Identifier, y: Identifier,
                                                   s: seq<Identifier>, t: seq<Identifier>)
    requires CompareIdentifier(x, y) == 1
    ensures CompareIdentifiers(common + [x] + s, common + [y] + t) == 1
    decreases |common|
  {
    if |common| > 0 {
      assert (common + [x] + s)[1..] == common[1..] + [x] + s;
      assert (common + [y] + t)[1..] == common[1..] + [y] + t;
      CompareIdentifierLaws(common[0], common[0]);
      FirstDifferenceDecides(common[1..], x, y, s, t);
    }
  }

  /** Section 11.4.4: a longer list of identifiers is greater than a proper
      prefix of it. */
  lemma {:induction false} LongerListGreater(common: seq<Identifier>, rest: seq<Identifier>)
    requires |rest| > 0
    ensures CompareIdentifiers(common + rest, common) == 1
    decreases |common|
  {
    if |common| > 0 {
      assert (common + rest)[1..] == common[1..] + rest;
      CompareIdentifierLaws(common[0], common[0]);
      LongerListGreater(common[1..], rest);
    }
  }

  /** With equal release numbers and both versions pre-releases, a version
      whose pre-release extends the other's is greater. */
  lemma LongerPrereleaseGreater(v: Version, rest: seq<Identifier>)
    requires |v.pre| > 0 && |rest| > 0
    ensures GT(v.(pre := v.pre + rest), v)
  {
    LongerListGreater(v.pre, rest);
  }

  /** Build metadata never changes precedence (section 10). */
  lemma BuildIgnored(a: Version, b: Version, x: seq<string>, y: seq<string>)
    ensures Compare(a.(build := x), b.(build := y)) == Compare(a, b)
  {
  }

  /** A pre-release sorts below the release it precedes (section 9). */
  lemma PrereleaseBelowRelease(v: Version)
    requires |v.pre| > 0
    ensures GT(v.(pre := []), v)
  {
  }

  /** The precedence chain given as an example in section 11.4 of the
      standard: 1.0.0-alpha < 1.0.0-alpha.1 < 1.0.0-alpha.beta < 1.0.0-beta
      < 1.0.0-beta.2 < 1.0.0-beta.11 < 1.0.0-rc.1 < 1.0.0. */
  lemma StandardExample()
    ensures var chain := [
        Version(1, 0, 0, [Alpha("alpha")], []),
        Version(1, 0, 0, [Alpha("alpha"), Num(1)], []),
        Version(1, 0, 0, [Alpha("alpha"), Alpha("beta")], []),
        Version(1, 0, 0, [Alpha("beta")], []),
        Version(1, 0, 0, [Alpha("beta"), Num(2)], []),
        Version(1, 0, 0, [Alpha("beta"), Num(11)], []),
        Version(1, 0, 0, [Alpha("rc"), Num(1)], []),
        Version(1, 0, 0, [], [])];
      forall k :: 0 <= k < |chain| - 1 ==> GT(chain[k + 1], chain[k])
  {
  }
}
