/** Semantic Versioning 2.0.0 versions (sections 2, 9 and 10), parsed and
    printed the way the `github.com/blang/semver` package does it. */
module SemVer {
  import opened Wrappers
  import opened Strings
  import opened Decimal

  /** A pre-release identifier: numeric or alphanumeric (section 9). */
  datatype Identifier = Num(n: nat) | Alpha(s: string)

  /** `semver.Version`; `build` is kept but never ordered (section 10). */
  datatype Version = Version(major: nat, minor: nat, patch: nat,
                             pre: seq<Identifier>, build: seq<string>)

  /** `semver.Version{}`, the value returned alongside every error. */
  const Zero := Version(0, 0, 0, [], [])

  datatype ParseError =
    | EmptyVersion
    | MissingComponents
    | InvalidNumber(part: string)
    | LeadingZeroes(part: string)
    | NumberSyntax(part: string)  // `strconv.ParseUint` on an empty part
    | NotUint64(part: string)     // `strconv.ParseUint` out of range
    | EmptyPrerelease
    | InvalidPrerelease(id: string)
    | EmptyBuild
    | InvalidBuild(id: string)

  /** The identifier alphabet `[0-9A-Za-z-]` of sections 9 and 10. */
  predicate IsAlnum(c: char) {
    'A' <= c <= 'Z' || 'a' <= c <= 'z' || c == '-' || IsDigit(c)
  }

  predicate AllAlnum(s: string) {
    forall k :: 0 <= k < |s| ==> IsAlnum(s[k])
  }

  predicate ValidBuildId(s: string) {
    |s| > 0 && AllAlnum(s)
  }

  predicate ValidIdentifier(id: Identifier) {
    match id
    case Num(n) => n <= MaxUint64
    case Alpha(s) => |s| > 0 && AllAlnum(s) && !AllDigits(s)
  }

  /** Everything `Parse` can produce: 64-bit numbers and valid identifiers. */
  predicate WellFormed(v: Version) {
    && v.major <= MaxUint64 && v.minor <= MaxUint64 && v.patch <= MaxUint64
    && (forall k :: 0 <= k < |v.pre| ==> ValidIdentifier(v.pre[k]))
    && (forall k :: 0 <= k < |v.build| ==> ValidBuildId(v.build[k]))
  }

  // ---------------------------------------------------------------- printing

  function IdentifierString(id: Identifier): string {
    match id
    case Num(n) => Show(n)
    case Alpha(s) => s
  }

  function IdentifierStrings(ids: seq<Identifier>): (r: seq<string>)
    ensures |r| == |ids|
    ensures forall k :: 0 <= k < |ids| ==> r[k] == IdentifierString(ids[k])
  {
    if |ids| == 0 then [] else [IdentifierString(ids[0])] + IdentifierStrings(ids[1..])
  }

  function PreSuffix(v: Version): string {
    if |v.pre| == 0 then "" else "-" + Join(IdentifierStrings(v.pre), '.')
  }

  function BuildSuffix(v: Version): string {
    if |v.build| == 0 then "" else "+" + Join(v.build, '.')
  }

  /** `Version.String()`: `MAJOR.MINOR.PATCH[-PRE][+BUILD]`. */
  function Format(v: Version): string {
    Show(v.major) + ['.'] + Show(v.minor) + ['.'] + ReleaseText(v)
  }

  /** The text after the second dot: `PATCH[-PRE][+BUILD]`. */
  function ReleaseText(v: Version): string {
    Show(v.patch) + PreSuffix(v) + BuildSuffix(v)
  }

  // ----------------------------------------------------------------- parsing

  /** A major, minor or patch number: digits only, no leading zero, and
      within `uint64` (`strconv.ParseUint` rejects the empty string). */
  function ParseNumber(part: string): (r: Result<nat, ParseError>)
    ensures r.Ok? <==> AllDigits(part) && |part| > 0 && !HasLeadingZero(part) && Value(part) <= MaxUint64
    ensures r.Ok? ==> r.value <= MaxUint64 && Show(r.value) == part
    ensures |part| == 0 ==> r == Err(NumberSyntax(part))
    ensures |part| > 0 && AllDigits(part) && !HasLeadingZero(part) && Value(part) > MaxUint64 ==>
      r == Err(NotUint64(part))
  {
    if !AllDigits(part) then Err(InvalidNumber(part))
    else if HasLeadingZero(part) then Err(LeadingZeroes(part))
    else if |part| == 0 then Err(NumberSyntax(part))
    else if Value(part) > MaxUint64 then Err(NotUint64(part))
    else ShowValue(part); Ok(Value(part))
  }

  /** `semver.NewPRVersion`. */
  function ParseIdentifier(s: string): (r: Result<Identifier, ParseError>)
    ensures r.Ok? ==> ValidIdentifier(r.value) && IdentifierString(r.value) == s
  {
    if |s| == 0 then Err(EmptyPrerelease)
    else if AllDigits(s) then
      if HasLeadingZero(s) then Err(LeadingZeroes(s))
      else if Value(s) > MaxUint64 then Err(NotUint64(s))
      else ShowValue(s); Ok(Num(Value(s)))
    else if AllAlnum(s) then Ok(Alpha(s))
    else Err(InvalidPrerelease(s))
  }

  /** Parses the pre-release identifiers in order, stopping at the first error. */
  function ParseIdentifiers(xs: seq<string>): (r: Result<seq<Identifier>, ParseError>)
    ensures r.Ok? ==> IdentifierStrings(r.value) == xs
    ensures r.Ok? ==> forall k :: 0 <= k < |r.value| ==> ValidIdentifier(r.value[k])
  {
    if |xs| == 0 then Ok([])
    else
      var id :- ParseIdentifier(xs[0]);
      var rest :- ParseIdentifiers(xs[1..]);
      assert xs == [xs[0]] + xs[1..];
      Ok([id] + rest)
  }

  /** Checks the build identifiers in order, stopping at the first error. */
  function ParseBuild(xs: seq<string>): (r: Result<seq<string>, ParseError>)
    ensures r.Ok? <==> forall k :: 0 <= k < |xs| ==> ValidBuildId(xs[k])
    ensures r.Ok? ==> r.value == xs
  {
    if |xs| == 0 then Ok([])
    else if |xs[0]| == 0 then Err(EmptyBuild)
    else if !AllAlnum(xs[0]) then Err(InvalidBuild(xs[0]))
    else
      var rest :- ParseBuild(xs[1..]);
      assert xs == [xs[0]] + xs[1..];
      Ok([xs[0]] + rest)
  }

  /** Splits `s` at the first `c`: the text before it, and the dot-separated
      identifiers after it (none when `c` does not occur). */
  function CutAt(s: string, c: char): (string, seq<string>)
  {
    match IndexOf(s, c)
    case None => (s, [])
    case Some(i) => (s[..i], Split(s[i + 1..], '.'))
  }

  /** `semver.Parse`. The two cuts at the first and second dot are
      `strings.SplitN(s, ".", 3)` together with its three-pieces check. */
  function Parse(s: string): (r: Result<Version, ParseError>)
    ensures |s| == 0 ==> r == Err(EmptyVersion)
    ensures '.' !in s ==> r.Err?
    ensures r.Ok? ==> WellFormed(r.value)
  {
    if |s| == 0 then Err(EmptyVersion)
    else match CutFirst(s, '.')
      case None => Err(MissingComponents)
      case Some((majorText, afterMajor)) =>
        match CutFirst(afterMajor, '.')
        case None => Err(MissingComponents)
        case Some((minorText, tail)) => ParseParts(majorText, minorText, tail)
  }

  /** The three dot-separated parts, checked left to right. */
  function ParseParts(majorText: string, minorText: string, tail: string): (r: Result<Version, ParseError>)
    ensures r.Ok? ==> WellFormed(r.value)
  {
    var major :- ParseNumber(majorText);
    var minor :- ParseNumber(minorText);
    ParseRelease(major, minor, tail)
  }

  /** The part of `semver.Parse` after the second dot: build metadata is cut
      off at the first `+`, then the pre-release at the first `-`; the patch
      number, the pre-release and the build identifiers are checked in that
      order. */
  function ParseRelease(major: nat, minor: nat, tail: string): (r: Result<Version, ParseError>)
    ensures r.Ok? ==> r.value.major == major && r.value.minor == minor
    ensures r.Ok? ==> r.value.patch <= MaxUint64
    ensures r.Ok? ==> forall k :: 0 <= k < |r.value.pre| ==> ValidIdentifier(r.value.pre[k])
    ensures r.Ok? ==> forall k :: 0 <= k < |r.value.build| ==> ValidBuildId(r.value.build[k])
  {
    var (rest, buildIds) := CutAt(tail, '+');
    var (patchText, preIds) := CutAt(rest, '-');
    var patch :- ParseNumber(patchText);
    var pre :- ParseIdentifiers(preIds);
    var build :- ParseBuild(buildIds);
    Ok(Version(major, minor, patch, pre, build))
  }

  /** `semver.ParseTolerant`, restricted to the one leniency this model
      keeps: a single leading `v` is dropped before parsing. */
  function ParseTolerant(s: string): (r: Result<Version, ParseError>)
    ensures |s| == 0 ==> r == Err(EmptyVersion)
    ensures '.' !in s ==> r.Err?
    ensures r.Ok? ==> WellFormed(r.value)
  {
    if |s| > 0 && s[0] == 'v' then Parse(s[1..]) else Parse(s)
  }

  /** A string starting with a letter is never a version: its major part is
      not a number. */
  lemma LetterLeadRejected(s: string)
    requires |s| > 0 && ('A' <= s[0] <= 'Z' || 'a' <= s[0] <= 'z')
    ensures Parse(s).Err?
  {
    var cut := CutFirst(s, '.');
    if cut.Some? {
      var majorText := cut.value.0;
      assert s == majorText + ['.'] + cut.value.1;
      assert |majorText| > 0 && majorText[0] == s[0];
      assert !AllDigits(majorText);
    }
  }

  // ------------------------------------------------------------ round trips

  lemma {:induction false} JoinAvoids(xs: seq<string>, sep: char, c: char)
    requires c != sep
    requires forall k :: 0 <= k < |xs| ==> c !in xs[k]
    ensures c !in Join(xs, sep)
    decreases |xs|
  {
    if |xs| > 1 {
      JoinAvoids(xs[1..], sep, c);
    }
  }

  lemma CutAtFound(a: string, c: char, b: string)
    requires c !in a
    ensures CutAt(a + [c] + b, c) == (a, Split(b, '.'))
  {
    var s := a + [c] + b;
    IndexAfterFreePrefix(a, c, b);
    assert s[..|a|] == a;
    assert s[|a| + 1..] == b;
  }

  /** What `CutAt` removes is exactly the separator and the joined identifiers. */
  lemma CutAtRejoin(s: string, c: char)
    ensures s == CutAt(s, c).0 + (if |CutAt(s, c).1| == 0 then "" else [c] + Join(CutAt(s, c).1, '.'))
  {
    var idx := IndexOf(s, c);
    if idx.Some? {
      var i := idx.value;
      var b := s[i + 1..];
      var ids := Split(b, '.');
      assert CutAt(s, c) == (s[..i], ids);
      assert |ids| > 0;
      assert Join(ids, '.') == b by { JoinSplit(b, '.'); }
      assert s == s[..i] + ([c] + b) by { assert s[i] == c; }
    } else {
      assert CutAt(s, c) == (s, []);
    }
  }

  lemma IdentifierRoundTrip(id: Identifier)
    requires ValidIdentifier(id)
    ensures ParseIdentifier(IdentifierString(id)) == Ok(id)
  {
    if id.Num? {
      ValueShow(id.n);
    }
  }

  lemma {:induction false} IdentifiersRoundTrip(ids: seq<Identifier>)
    requires forall k :: 0 <= k < |ids| ==> ValidIdentifier(ids[k])
    ensures ParseIdentifiers(IdentifierStrings(ids)) == Ok(ids)
    decreases |ids|
  {
    if |ids| > 0 {
      var xs := IdentifierStrings(ids);
      assert xs[0] == IdentifierString(ids[0]);
      assert xs[1..] == IdentifierStrings(ids[1..]);
      IdentifierRoundTrip(ids[0]);
      IdentifiersRoundTrip(ids[1..]);
      assert ParseIdentifiers(xs) == Ok([ids[0]] + ids[1..]);
      assert ids == [ids[0]] + ids[1..];
    }
  }

  lemma IdentifierStringFree(id: Identifier, c: char)
    requires ValidIdentifier(id) && !IsAlnum(c)
    ensures c !in IdentifierString(id)
  {
    if id.Num? {
      var s := Show(id.n);
      assert forall k :: 0 <= k < |s| ==> IsAlnum(s[k]);
    }
  }

  lemma ShowFree(n: nat, c: char)
    requires !IsDigit(c)
    ensures c !in Show(n)
  {
    var p := Show(n);
    assert forall k :: 0 <= k < |p| ==> p[k] != c;
  }

  lemma IdentifierStringsFree(ids: seq<Identifier>, c: char)
    requires forall k :: 0 <= k < |ids| ==> ValidIdentifier(ids[k])
    requires !IsAlnum(c)
    ensures forall k :: 0 <= k < |ids| ==> c !in IdentifierStrings(ids)[k]
  {
    forall k | 0 <= k < |ids|
      ensures c !in IdentifierStrings(ids)[k]
    {
      IdentifierStringFree(ids[k], c);
    }
  }

  /** A character outside the identifier alphabet is absent from an
      identifier-alphabet string. */
  lemma AlnumFree(s: string, c: char)
    requires AllAlnum(s) && !IsAlnum(c)
    ensures c !in s
  {
    assert forall i :: 0 <= i < |s| ==> s[i] != c;
  }

  lemma PreSuffixShape(v: Version)
    requires WellFormed(v)
    ensures '+' !in PreSuffix(v)
    ensures CutAt(Show(v.patch) + PreSuffix(v), '-') == (Show(v.patch), IdentifierStrings(v.pre))
  {
    var p := Show(v.patch);
    ShowFree(v.patch, '-');
    if |v.pre| == 0 {
      assert p + PreSuffix(v) == p;
      assert IndexOf(p, '-').None?;
    } else {
      PreSuffixCut(p, v.pre);
    }
  }

  lemma PreSuffixCut(p: string, pre: seq<Identifier>)
    requires |pre| > 0 && '-' !in p
    requires forall k :: 0 <= k < |pre| ==> ValidIdentifier(pre[k])
    ensures '+' !in "-" + Join(IdentifierStrings(pre), '.')
    ensures CutAt(p + ("-" + Join(IdentifierStrings(pre), '.')), '-') == (p, IdentifierStrings(pre))
  {
    var xs := IdentifierStrings(pre);
    IdentifierStringsFree(pre, '.');
    IdentifierStringsFree(pre, '+');
    JoinAvoids(xs, '.', '+');
    CutJoined(p, '-', xs);
  }

  /** Cutting `p` + `c` + the dot-join of dot-free `xs` recovers `p` and `xs`. */
  lemma CutJoined(p: string, c: char, xs: seq<string>)
    requires |xs| > 0 && c !in p && c != '.'
    requires forall k :: 0 <= k < |xs| ==> '.' !in xs[k]
    ensures CutAt(p + ([c] + Join(xs, '.')), c) == (p, xs)
  {
    var j := Join(xs, '.');
    assert p + ([c] + j) == p + [c] + j;
    assert CutAt(p + [c] + j, c) == (p, Split(j, '.')) by {
      CutAtFound(p, c, j);
    }
    assert Split(j, '.') == xs by {
      SplitJoin(xs, '.');
    }
  }

  /** No build identifier contains a dot. */
  lemma BuildDotFree(v: Version)
    requires WellFormed(v)
    ensures forall k :: 0 <= k < |v.build| ==> '.' !in v.build[k]
  {
    forall k | 0 <= k < |v.build|
      ensures '.' !in v.build[k]
    {
      AlnumFree(v.build[k], '.');
    }
  }

  lemma BuildSuffixShape(v: Version, head: string)
    requires WellFormed(v) && '+' !in head
    ensures CutAt(head + BuildSuffix(v), '+') == (head, v.build)
  {
    if |v.build| == 0 {
      assert head + BuildSuffix(v) == head;
    } else {
      BuildDotFree(v);
      assert BuildSuffix(v) == ['+'] + Join(v.build, '.');
      CutJoined(head, '+', v.build);
    }
  }

  /** A printed version uses only identifier characters, `.` and `+`. */
  lemma FormatAvoids(v: Version, c: char)
    requires WellFormed(v) && !IsAlnum(c) && c != '.' && c != '+'
    ensures c !in Format(v)
  {
    ShowFree(v.major, c);
    ShowFree(v.minor, c);
    ShowFree(v.patch, c);
    if |v.pre| > 0 {
      IdentifierStringsFree(v.pre, c);
      JoinAvoids(IdentifierStrings(v.pre), '.', c);
    }
    if |v.build| > 0 {
      forall k | 0 <= k < |v.build|
        ensures c !in v.build[k]
      {
        AlnumFree(v.build[k], c);
      }
      JoinAvoids(v.build, '.', c);
    }
  }

  lemma ReleaseRoundTrip(v: Version)
    requires WellFormed(v)
    ensures ParseRelease(v.major, v.minor, ReleaseText(v)) == Ok(v)
  {
    var head := Show(v.patch) + PreSuffix(v);
    PreSuffixShape(v);
    BuildSuffixShape(v, head);
    assert CutAt(ReleaseText(v), '+') == (head, v.build);
    ValueShow(v.patch);
    assert ParseNumber(Show(v.patch)) == Ok(v.patch);
    IdentifiersRoundTrip(v.pre);
    assert ParseBuild(v.build) == Ok(v.build);
  }

  /** The two cuts of `Parse` find the first two dots of a dotted triple. */
  lemma ParseDotted(major: string, minor: string, tail: string)
    requires '.' !in major && '.' !in minor
    ensures Parse(major + ['.'] + (minor + ['.'] + tail)) == ParseParts(major, minor, tail)
  {
    var s := major + ['.'] + (minor + ['.'] + tail);
    CutFirstFound(major, '.', minor + ['.'] + tail);
    CutFirstFound(minor, '.', tail);
    assert |s| > 0;
  }

  /** Parsing a printed well-formed version gives the version back. */
  lemma ParseFormat(v: Version)
    requires WellFormed(v)
    ensures Parse(Format(v)) == Ok(v)
  {
    var major, minor, tail := Show(v.major), Show(v.minor), ReleaseText(v);
    ShowFree(v.major, '.');
    ShowFree(v.minor, '.');
    assert Format(v) == major + ['.'] + (minor + ['.'] + tail);
    ParseDotted(major, minor, tail);
    PartsRoundTrip(v);
  }

  lemma PartsRoundTrip(v: Version)
    requires WellFormed(v)
    ensures ParseParts(Show(v.major), Show(v.minor), ReleaseText(v)) == Ok(v)
  {
    assert ParseNumber(Show(v.major)) == Ok(v.major) by {
      ValueShow(v.major);
    }
    assert ParseNumber(Show(v.minor)) == Ok(v.minor) by {
      ValueShow(v.minor);
    }
    ReleaseRoundTrip(v);
  }

  lemma ReleaseRejoin(major: nat, minor: nat, tail: string)
    requires ParseRelease(major, minor, tail).Ok?
    ensures ReleaseText(ParseRelease(major, minor, tail).value) == tail
  {
    var v := ParseRelease(major, minor, tail).value;
    var (rest, buildIds) := CutAt(tail, '+');
    var (patchText, preIds) := CutAt(rest, '-');
    CutAtRejoin(tail, '+');
    CutAtRejoin(rest, '-');
    assert PreSuffix(v) == (if |preIds| == 0 then "" else ['-'] + Join(preIds, '.'));
    assert BuildSuffix(v) == (if |buildIds| == 0 then "" else ['+'] + Join(buildIds, '.'));
  }

  /** Three accepted parts print back as the dotted triple they came from. */
  lemma PartsRejoin(majorText: string, minorText: string, tail: string)
    requires ParseParts(majorText, minorText, tail).Ok?
    ensures var v := ParseParts(majorText, minorText, tail).value;
      WellFormed(v) && Format(v) == majorText + ['.'] + (minorText + ['.'] + tail)
  {
    var major := ParseNumber(majorText).value;
    var minor := ParseNumber(minorText).value;
    var v := ParseParts(majorText, minorText, tail).value;
    assert v == ParseRelease(major, minor, tail).value;
    assert ReleaseText(v) == tail by {
      ReleaseRejoin(major, minor, tail);
    }
    FormatFromParts(v, majorText, minorText, tail);
  }

  /** The printed form of `v`, given the printed forms of its parts. */
  lemma FormatFromParts(v: Version, majorText: string, minorText: string, tail: string)
    requires Show(v.major) == majorText && Show(v.minor) == minorText && ReleaseText(v) == tail
    ensures Format(v) == majorText + ['.'] + (minorText + ['.'] + tail)
  {
  }

  /** Every accepted string is the canonical print of a well-formed version. */
  lemma FormatParse(s: string)
    requires Parse(s).Ok?
    ensures WellFormed(Parse(s).value) && Format(Parse(s).value) == s
  {
    var (majorText, afterMajor) := CutFirst(s, '.').value;
    var (minorText, tail) := CutFirst(afterMajor, '.').value;
    assert Parse(s) == ParseParts(majorText, minorText, tail);
    PartsRejoin(majorText, minorText, tail);
    assert s == majorText + ['.'] + (minorText + ['.'] + tail);
  }

  /** `Parse` is a bijection between canonical strings and well-formed versions. */
  lemma ParseIff(s: string, v: Version)
    ensures Parse(s) == Ok(v) <==> WellFormed(v) && s == Format(v)
  {
    if Parse(s) == Ok(v) {
      FormatParse(s);
    }
    if WellFormed(v) && s == Format(v) {
      ParseFormat(v);
    }
  }

  /** The tolerant parse accepts exactly the canonical strings, with or
      without one leading `v`. */
  lemma ParseTolerantIff(s: string, v: Version)
    ensures ParseTolerant(s) == Ok(v) <==>
      WellFormed(v) && (s == Format(v) || s == "v" + Format(v))
  {
    var f := Format(v);
    assert f[0] != 'v';
    if |s| > 0 && s[0] == 'v' {
      ParseIff(s[1..], v);
      if s == f {
        assert false;
      }
      if s == "v" + f {
        assert s[1..] == f;
      }
      if s[1..] == f {
        assert s == "v" + f;
      }
    } else {
      ParseIff(s, v);
    }
  }
}
