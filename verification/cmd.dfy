/** One pass of the updater command (`cmd/updater.go`): list the containers of
    the `autoupdate` deployments, and for each one compare the version its
    image carries with the latest one on offer, asking for a deployment update
    exactly when the latter is strictly greater. */
module Cmd {
  import opened Wrappers
  import opened SemVer
  import opened Errors
  import opened Precedence
  import Kube
  import Registry
  import Updater

  /** The calls the loop makes on each container. `GetImageVersion` and
      `UpdateDeployment` are not part of this model, so all three are
      parameters; the result of `updateDeployment` is recorded and never
      consulted. */
  datatype Probes = Probes(
    imageVersion: Updater.Container -> Fallible<Version, Error>,
    latestVersion: Updater.Container -> Fallible<Version, Error>,
    updateDeployment: (Updater.Container, Version) -> Option<Error>)

  /** What the loop did with one container: the two lookups as returned
      (errors are only logged), and, when an update was asked for, the
      version passed to `UpdateDeployment` and what it returned. */
  datatype Step = Step(
    container: Updater.Container,
    current: Fallible<Version, Error>,
    latest: Fallible<Version, Error>,
    update: Option<(Version, Option<Error>)>)

  /** A run either stops at once because the listing failed (`log.Fatalln`),
      or examines every listed container, having warned when there were
      none. */
  datatype Run =
    | Fatal(error: Error)
    | Finished(warnedEmpty: bool, steps: seq<Step>)

  /** The body of the loop for one container. */
  function Examine(c: Updater.Container, p: Probes): (s: Step)
    ensures s.container == c && s.current == p.imageVersion(c) && s.latest == p.latestVersion(c)
    ensures s.update.Some? <==> GT(s.latest.value, s.current.value)
    ensures s.update.Some? ==> s.update.value == (s.latest.value, p.updateDeployment(c, s.latest.value))
  {
    var current := p.imageVersion(c);
    var latest := p.latestVersion(c);
    if GT(latest.value, current.value) then
      Step(c, current, latest, Some((latest.value, p.updateDeployment(c, latest.value))))
    else
      Step(c, current, latest, None)
  }

  /** The loop as a fold: one step per item, in list order. */
  function Steps(items: seq<Updater.Container>, p: Probes): (r: seq<Step>)
    ensures |r| == |items|
    ensures forall k :: 0 <= k < |items| ==> r[k] == Examine(items[k], p)
  {
    if |items| == 0 then []
    else Steps(items[..|items| - 1], p) + [Examine(items[|items| - 1], p)]
  }

  /** `update()`: a listing error ends the run before any container is
      examined; otherwise every listed container is examined, in order, after
      a warning if there are none. */
  function UpdateRun(
      namespace: string,
      parseSelector: string -> Result<Kube.Selector, Error>,
      listDeployments: (string, Kube.Selector) -> Result<seq<Kube.Deployment>, Error>,
      p: Probes)
    : (run: Run)
    ensures var listed := Updater.NewList(namespace, parseSelector, listDeployments);
      && (listed.Err? <==> run.Fatal?)
      && (listed.Err? ==> run.error == listed.error)
      && (listed.Ok? ==>
            && (run.warnedEmpty <==> |listed.value.items| == 0)
            && run.steps == Steps(listed.value.items, p)
            && |run.steps| == |listed.value.items|
            && forall k :: 0 <= k < |run.steps| ==> run.steps[k] == Examine(listed.value.items[k], p))
  {
    match Updater.NewList(namespace, parseSelector, listDeployments)
    case Err(e) => Fatal(e)
    case Ok(list) => Finished(|list.items| == 0, Steps(list.items, p))
  }

  /** The loop of `update()` written as the source writes it. */
  method Update(
      namespace: string,
      parseSelector: string -> Result<Kube.Selector, Error>,
      listDeployments: (string, Kube.Selector) -> Result<seq<Kube.Deployment>, Error>,
      p: Probes)
    returns (run: Run)
    ensures run == UpdateRun(namespace, parseSelector, listDeployments, p)
    ensures run.Finished? ==> forall k :: 0 <= k < |run.steps| ==>
      (run.steps[k].update.Some? <==> GT(run.steps[k].latest.value, run.steps[k].current.value))
  {
    var listed := Updater.NewList(namespace, parseSelector, listDeployments);
    if listed.Err? {
      return Fatal(listed.error);
    }
    var items := listed.value.items;
    var steps: seq<Step> := [];
    var i := 0;
    while i < |items|
      invariant 0 <= i <= |items|
      invariant steps == Steps(items[..i], p)
    {
      var c := items[i];
      var current := p.imageVersion(c);
      var latest := p.latestVersion(c);
      var update: Option<(Version, Option<Error>)> := None;
      if GT(latest.value, current.value) {
        var result := p.updateDeployment(c, latest.value);
        update := Some((latest.value, result));
      }
      assert items[..i + 1][..i] == items[..i];
      steps := steps + [Step(c, current, latest, update)];
      i := i + 1;
    }
    assert items[..i] == items;
    run := Finished(|items| == 0, steps);
  }

  // ------------------------------------------------------------ properties

  /** A latest version that is equal in precedence to the current one, or
      lower, never triggers an update. */
  lemma NoUpdateUnlessNewer(c: Updater.Container, p: Probes)
    requires var current, latest := p.imageVersion(c).value, p.latestVersion(c).value;
      SamePrecedence(latest, current) || GT(current, latest)
    ensures Examine(c, p).update.None?
  {
    var current, latest := p.imageVersion(c).value, p.latestVersion(c).value;
    GreaterIsStrictOrder(current, latest, current);
  }

  /** What `UpdateDeployment` returns changes nothing: two runs that differ
      only in it examine the same containers, see the same versions and ask
      for the same updates. The lookups are pure functions of the container
      here, so a side effect of an update on later lookups is not covered. */
  lemma UpdateResultIgnored(items: seq<Updater.Container>, p: Probes, q: Probes)
    requires forall c :: p.imageVersion(c) == q.imageVersion(c)
    requires forall c :: p.latestVersion(c) == q.latestVersion(c)
    ensures |Steps(items, p)| == |Steps(items, q)|
    ensures forall k :: 0 <= k < |items| ==>
      Steps(items, p)[k].(update := None) == Steps(items, q)[k].(update := None) &&
      Steps(items, p)[k].update.Some? == Steps(items, q)[k].update.Some? &&
      (Steps(items, p)[k].update.Some? ==> Steps(items, p)[k].update.value.0 == Steps(items, q)[k].update.value.0)
  {
  }

  /** The step taken for one container does not depend on the containers
      around it: the loop has no early exit, so earlier updates never stop
      later ones. With pure lookups, the step is also the same wherever the
      container stands in the list. */
  lemma StepsIndependent(before: seq<Updater.Container>, c: Updater.Container, after: seq<Updater.Container>, p: Probes)
    ensures |Steps(before + [c] + after, p)| > |before|
    ensures Steps(before + [c] + after, p)[|before|] == Examine(c, p)
  {
  }

  /** This revision's lookups, assuming `GetImageVersion` (not part of this
      model) returns what `ParseImageVersion` returns: the image tag parsed,
      with the zero version on error, and the registry stub answering
      100.0.0. */
  function Stubbed(updateDeployment: (Updater.Container, Version) -> Option<Error>): (p: Probes)
    ensures forall c :: p.latestVersion(c) == Fallible(Registry.Latest, None)
  {
    Probes(Updater.ParseImageVersion, Updater.GetLatestVersion, updateDeployment)
  }

  /** Under the lookups of `Stubbed`: if `GetImageVersion` returns the zero
      version together with its error, as `ParseImageVersion` does, a
      container whose version cannot be read is still examined and is updated
      to 100.0.0, because the zero version is below every release. */
  lemma UnreadableVersionStillUpdated(c: Updater.Container, u: (Updater.Container, Version) -> Option<Error>)
    ensures Updater.ParseImageVersion(c).Failed() ==>
      Examine(c, Stubbed(u)).update.Some? && Examine(c, Stubbed(u)).update.value.0 == Registry.Latest
  {
  }

  /** With this revision's lookups, an image tagged with a printed
      well-formed version `v` is updated exactly when 100.0.0 is greater
      than `v`. */
  lemma StubbedDecision(c: Updater.Container, u: (Updater.Container, Version) -> Option<Error>, repo: string, v: Version)
    requires ':' !in repo && WellFormed(v)
    requires c.container.image == repo + [':'] + Format(v)
    ensures Examine(c, Stubbed(u)).update.Some? <==> GT(Registry.Latest, v)
  {
    assert "" + Format(v) == Format(v);
    Updater.ImageRoundTrip(c, repo, v, false);
  }

  /** The package test's container, tagged 1.2.3, is updated to 100.0.0. */
  lemma FixtureUpdated(u: (Updater.Container, Version) -> Option<Error>)
    ensures var s := Examine(Updater.Fixture("registry.example.com/my-image:1.2.3"), Stubbed(u));
      s.update.Some? && s.update.value.0 == Version(100, 0, 0, [], [])
  {
    Updater.FixtureParses();
  }
}
