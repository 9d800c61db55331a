/** The few operations of Go's `strings` package the updater relies on,
    for a one-character separator. */
module Strings {
  import opened Wrappers

  /** Position of the first `c` in `s` (`strings.IndexRune`). */
  function IndexOf(s: string, c: char): (r: Option<nat>)
    ensures r.None? <==> c !in s
    ensures r.Some? ==> r.value < |s| && s[r.value] == c && c !in s[..r.value]
  {
    if |s| == 0 then None
    else if s[0] == c then Some(0)
    else match IndexOf(s[1..], c)
      case None => None
      case Some(i) =>
        assert s[..i + 1] == [s[0]] + s[1..][..i];
        Some(i + 1)
  }

  /** Number of occurrences of `c` in `s` (`strings.Count`). */
  function Count(s: string, c: char): nat
  {
    if |s| == 0 then 0
    else (if s[0] == c then 1 else 0) + Count(s[1..], c)
  }

  /** `strings.Split(s, sep)`: the pieces between occurrences of `sep`. */
  function Split(s: string, sep: char): (r: seq<string>)
    ensures |r| >= 1
    ensures forall k :: 0 <= k < |r| ==> sep !in r[k]
    decreases |s|
  {
    match IndexOf(s, sep)
    case None => [s]
    case Some(i) => [s[..i]] + Split(s[i + 1..], sep)
  }

  /** The text before and after the first `c`, when there is one. */
  function CutFirst(s: string, c: char): (r: Option<(string, string)>)
    ensures r.None? <==> c !in s
    ensures r.Some? ==> c !in r.value.0 && s == r.value.0 + [c] + r.value.1
  {
    match IndexOf(s, c)
    case None => None
    case Some(i) =>
      assert s == s[..i] + [c] + s[i + 1..];
      Some((s[..i], s[i + 1..]))
  }

  /** `strings.Join(xs, string(sep))`. */
  function Join(xs: seq<string>, sep: char): string
  {
    if |xs| == 0 then ""
    else if |xs| == 1 then xs[0]
    else xs[0] + [sep] + Join(xs[1..], sep)
  }

  /** The first `sep` after a separator-free prefix is found right there. */
  lemma IndexAfterFreePrefix(a: string, c: char, b: string)
    requires c !in a
    ensures IndexOf(a + [c] + b, c) == Some(|a|)
  {
    var s := a + [c] + b;
    assert s[|a|] == c;
    assert s[..|a|] == a;
  }

  /** Splitting after a separator-free first piece. */
  lemma SplitAfterFreePrefix(a: string, c: char, b: string)
    requires c !in a
    ensures Split(a + [c] + b, c) == [a] + Split(b, c)
  {
    var s := a + [c] + b;
    IndexAfterFreePrefix(a, c, b);
    assert s[..|a|] == a;
    assert s[|a| + 1..] == b;
  }

  /** Splitting undoes joining: the partner of `Join`. */
  lemma {:induction false} SplitJoin(xs: seq<string>, sep: char)
    requires |xs| >= 1
    requires forall k :: 0 <= k < |xs| ==> sep !in xs[k]
    ensures Split(Join(xs, sep), sep) == xs
    decreases |xs|
  {
    if |xs| == 1 {
      assert IndexOf(xs[0], sep).None?;
    } else {
      var rest := Join(xs[1..], sep);
      assert Join(xs, sep) == xs[0] + [sep] + rest;
      assert sep !in xs[0];
      SplitAfterFreePrefix(xs[0], sep, rest);
      SplitJoin(xs[1..], sep);
      assert xs == [xs[0]] + xs[1..];
    }
  }

  /** Joining undoes splitting: no character of the input is lost. */
  lemma {:induction false} JoinSplit(s: string, sep: char)
    ensures Join(Split(s, sep), sep) == s
    decreases |s|
  {
    match IndexOf(s, sep)
    case None =>
    case Some(i) =>
      var rest := Split(s[i + 1..], sep);
      JoinSplit(s[i + 1..], sep);
      assert ([s[..i]] + rest)[1..] == rest;
      assert s == s[..i] + [sep] + s[i + 1..];
  }

  lemma {:induction false} CountAppend(a: string, b: string, c: char)
    ensures Count(a + b, c) == Count(a, c) + Count(b, c)
    decreases |a|
  {
    if |a| > 0 {
      assert (a + b)[1..] == a[1..] + b;
      CountAppend(a[1..], b, c);
    } else {
      assert a + b == b;
    }
  }

  lemma {:induction false} CountAbsent(s: string, c: char)
    requires c !in s
    ensures Count(s, c) == 0
    decreases |s|
  {
    if |s| > 0 {
      CountAbsent(s[1..], c);
    }
  }

  /** An occurrence of `c` is counted. */
  lemma {:induction false} CountPresent(s: string, c: char, i: nat)
    requires i < |s| && s[i] == c
    ensures Count(s, c) >= 1
    decreases i
  {
    if i > 0 {
      CountPresent(s[1..], c, i - 1);
    }
  }

  /** `Split` yields one more piece than there are separators. */
  lemma {:induction false} SplitCount(s: string, sep: char)
    ensures |Split(s, sep)| == Count(s, sep) + 1
    decreases |s|
  {
    match IndexOf(s, sep)
    case None =>
      CountAbsent(s, sep);
    case Some(i) =>
      SplitCount(s[i + 1..], sep);
      assert s == s[..i] + ([sep] + s[i + 1..]);
      CountAppend(s[..i], [sep] + s[i + 1..], sep);
      CountAppend([sep], s[i + 1..], sep);
      CountAbsent(s[..i], sep);
  }

  /** The first piece of `Split` is the longest separator-free prefix. */
  lemma SplitHead(s: string, sep: char)
    ensures var p := Split(s, sep)[0];
      p <= s && sep !in p && (|p| == |s| || s[|p|] == sep)
  {
  }

  /** Cutting at the first `c` after a `c`-free prefix. */
  lemma CutFirstFound(a: string, c: char, b: string)
    requires c !in a
    ensures CutFirst(a + [c] + b, c) == Some((a, b))
  {
    var s := a + [c] + b;
    IndexAfterFreePrefix(a, c, b);
    assert s[..|a|] == a;
    assert s[|a| + 1..] == b;
  }
}
