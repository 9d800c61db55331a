/** The updater's view of one container (`pkg/updater`): its name, the
    version its image is tagged with, the latest version on offer, and the
    discovery of all containers of the label-selected deployments. */
module Updater {
  import opened Wrappers
  import opened Strings
  import opened SemVer
  import opened Errors
  import Kube
  import Registry

  /** `updater.Container`: a pod-template container, the deployment it came
      from, and the (so far never set) repository and pre-update job. */
  datatype Container = Container(
    container: Kube.Container,
    deployment: Kube.Deployment,
    repository: Option<Registry.Repository>,
    beforeUpdate: Option<Kube.Job>)

  datatype ContainerList = ContainerList(items: seq<Container>)

  /** The label a deployment must carry to be considered. */
  const AutoupdateLabel: string := "autoupdate"

  /** `GetName`: the pod-template container's name, unchanged. */
  function GetName(c: Container): (name: string)
    ensures name == c.container.name
  {
    c.container.name
  }

  // ------------------------------------------------------ image versions

  /** `ParseImageVersion`: the image must split on `:` into exactly two
      pieces; the second is parsed tolerantly. Errors come with `Zero`. */
  function ParseImageVersion(c: Container): (r: Fallible<Version, Error>)
    ensures r.Failed() ==> r.value == Zero
    ensures Count(c.container.image, ':') != 1 <==>
      r == Fallible(Zero, Some(InvalidImageName(c.container.image)))
  {
    var image := Split(c.container.image, ':');
    SplitCount(c.container.image, ':');
    if |image| != 2 then
      Fallible(Zero, Some(InvalidImageName(c.container.image)))
    else
      Returned(ParseTolerant(image[1]))
  }

  /** An image `repo:tag` with one colon is judged by its tag alone. */
  lemma ImageTag(c: Container, repo: string, tag: string)
    requires ':' !in repo && ':' !in tag
    requires c.container.image == repo + [':'] + tag
    ensures ParseImageVersion(c) == Returned(ParseTolerant(tag))
  {
    var s := c.container.image;
    IndexAfterFreePrefix(repo, ':', tag);
    assert s[..|repo|] == repo;
    assert s[|repo| + 1..] == tag;
    assert Split(tag, ':') == [tag];
    assert Split(s, ':') == [repo, tag];
  }

  /** An image `repo:tag` whose tag is a printed well-formed version, with or
      without a leading `v`, yields that version and no error. */
  lemma ImageRoundTrip(c: Container, repo: string, v: Version, prefixed: bool)
    requires ':' !in repo && WellFormed(v)
    requires c.container.image == repo + [':'] + ((if prefixed then "v" else "") + Format(v))
    ensures ParseImageVersion(c) == Fallible(v, None)
  {
    var tag := (if prefixed then "v" else "") + Format(v);
    FormatAvoids(v, ':');
    ImageTag(c, repo, tag);
    ParseTolerantIff(tag, v);
  }

  /** An image yields version `v` without error exactly when it is
      `repository:` followed by the print of the well-formed `v`, with or
      without a leading `v`. */
  lemma ImageIff(c: Container, v: Version)
    ensures var image := c.container.image;
      var repo := RepositoryOf(image);
      ParseImageVersion(c) == Fallible(v, None) <==>
        WellFormed(v) &&
        (image == repo + [':'] + Format(v) || image == repo + [':'] + ("v" + Format(v)))
  {
    var image := c.container.image;
    var repo := RepositoryOf(image);
    if WellFormed(v) && image == repo + [':'] + Format(v) {
      assert "" + Format(v) == Format(v);
      ImageRoundTrip(c, repo, v, false);
    }
    if WellFormed(v) && image == repo + [':'] + ("v" + Format(v)) {
      ImageRoundTrip(c, repo, v, true);
    }
    if ParseImageVersion(c) == Fallible(v, None) {
      ImageAccepted(c, v);
    }
  }

  /** The only-if half of `ImageIff`. */
  lemma ImageAccepted(c: Container, v: Version)
    requires ParseImageVersion(c) == Fallible(v, None)
    ensures var image := c.container.image;
      var repo := RepositoryOf(image);
      WellFormed(v) &&
      (image == repo + [':'] + Format(v) || image == repo + [':'] + ("v" + Format(v)))
  {
    var image := c.container.image;
    var repo := RepositoryOf(image);
    SingleColon(image);
    var tag := image[|repo| + 1..];
    ImageTag(c, repo, tag);
    ParseTolerantIff(tag, v);
  }

  /** With exactly one `:`, the image is its repository, the colon, and a
      colon-free tag. */
  lemma SingleColon(image: string)
    requires Count(image, ':') == 1
    ensures var repo := RepositoryOf(image);
      |repo| < |image| && image == repo + [':'] + image[|repo| + 1..] && ':' !in image[|repo| + 1..]
  {
    var repo := RepositoryOf(image);
    if |repo| == |image| {
      assert image == repo;
      CountAbsent(image, ':');
      assert false;
    }
    var tag := image[|repo| + 1..];
    assert image == repo + [':'] + tag;
    CountAppend(repo + [':'], tag, ':');
    CountAppend(repo, [':'], ':');
    CountAbsent(repo, ':');
    assert Count([':'], ':') == 1;
    if ':' in tag {
      var i :| 0 <= i < |tag| && tag[i] == ':';
      CountPresent(tag, ':', i);
      assert false;
    }
  }

  // ----------------------------------------------------- latest versions

  /** The repository an image names: the text before its first `:`, or the
      whole image when it has none. */
  function RepositoryOf(image: string): (repo: string)
    ensures repo <= image && ':' !in repo
    ensures |repo| == |image| || image[|repo|] == ':'
  {
    SplitHead(image, ':');
    Split(image, ':')[0]
  }

  /** `GetDockerRegistry`. */
  function GetDockerRegistry(c: Container): (r: Fallible<Option<Registry.Registry>, Error>)
    ensures !r.Failed() && r.value.None?
  {
    Registry.NewRegistry(c.deployment)
  }

  /** `GetLatestVersion` with the registry constructor and the registry's
      lookup as parameters: a construction error is returned with `Zero`,
      otherwise the registry is asked about the image's repository. */
  function LatestVersionVia(
      c: Container,
      newRegistry: Kube.Deployment -> Fallible<Option<Registry.Registry>, Error>,
      lookup: (Option<Registry.Registry>, string) -> Fallible<Version, Error>)
    : (r: Fallible<Version, Error>)
    ensures newRegistry(c.deployment).Failed() ==>
      r.value == Zero && r.err == newRegistry(c.deployment).err
    ensures !newRegistry(c.deployment).Failed() ==>
      r == lookup(newRegistry(c.deployment).value, RepositoryOf(c.container.image))
  {
    var image := Split(c.container.image, ':');
    var registry := newRegistry(c.deployment);
    if registry.Failed() then Fallible(Zero, registry.err)
    else lookup(registry.value, image[0])
  }

  /** `GetLatestVersion` as wired in this revision: always 100.0.0. */
  function GetLatestVersion(c: Container): (r: Fallible<Version, Error>)
    ensures r == Fallible(Registry.Latest, None)
  {
    LatestVersionVia(c, Registry.NewRegistry, Registry.GetLatestVersion)
  }

  // ----------------------------------------------------------- discovery

  /** The number of pod-template containers over all deployments. */
  function TotalContainers(ds: seq<Kube.Deployment>): nat
  {
    if |ds| == 0 then 0
    else TotalContainers(ds[..|ds| - 1]) + |ds[|ds| - 1].containers|
  }

  /** One updater container per pod-template container of `d`, in order;
      repository and pre-update job are left unset. */
  function Wrap(d: Kube.Deployment, cs: seq<Kube.Container>): (r: seq<Container>)
    ensures |r| == |cs|
    ensures forall j :: 0 <= j < |cs| ==> r[j] == Container(cs[j], d, None, None)
  {
    if |cs| == 0 then []
    else Wrap(d, cs[..|cs| - 1]) + [Container(cs[|cs| - 1], d, None, None)]
  }

  /** The items `NewList` collects: deployment-major, then container order. */
  function Flatten(ds: seq<Kube.Deployment>): (r: seq<Container>)
    ensures |r| == TotalContainers(ds)
  {
    if |ds| == 0 then []
    else Flatten(ds[..|ds| - 1]) + Wrap(ds[|ds| - 1], ds[|ds| - 1].containers)
  }

  /** Adding one deployment at the end adds its items at the end. */
  lemma FlattenSnoc(ds: seq<Kube.Deployment>, d: Kube.Deployment)
    ensures Flatten(ds + [d]) == Flatten(ds) + Wrap(d, d.containers)
    ensures TotalContainers(ds + [d]) == TotalContainers(ds) + |d.containers|
  {
    var e := ds + [d];
    assert e[..|e| - 1] == ds;
    assert e[|e| - 1] == d;
  }

  lemma {:induction false} FlattenAppend(a: seq<Kube.Deployment>, b: seq<Kube.Deployment>)
    ensures Flatten(a + b) == Flatten(a) + Flatten(b)
    ensures TotalContainers(a + b) == TotalContainers(a) + TotalContainers(b)
    decreases |b|
  {
    if |b| == 0 {
      assert a + b == a;
    } else {
      var b', d := b[..|b| - 1], b[|b| - 1];
      var w := Wrap(d, d.containers);
      assert b == b' + [d];
      assert a + b == (a + b') + [d];
      assert Flatten(a + b) == Flatten(a + b') + w
          && TotalContainers(a + b) == TotalContainers(a + b') + |d.containers| by {
        FlattenSnoc(a + b', d);
      }
      assert Flatten(b) == Flatten(b') + w
          && TotalContainers(b) == TotalContainers(b') + |d.containers| by {
        FlattenSnoc(b', d);
      }
      assert Flatten(a + b') == Flatten(a) + Flatten(b')
          && TotalContainers(a + b') == TotalContainers(a) + TotalContainers(b') by {
        FlattenAppend(a, b');
      }
      assert Flatten(a) + Flatten(b') + w == Flatten(a) + (Flatten(b') + w);
    }
  }

  /** The `j`-th container of the `i`-th deployment is item number
      `TotalContainers(ds[..i]) + j`. */
  lemma FlattenAt(ds: seq<Kube.Deployment>, i: nat, j: nat)
    requires i < |ds| && j < |ds[i].containers|
    ensures TotalContainers(ds[..i]) + j < TotalContainers(ds)
    ensures Flatten(ds)[TotalContainers(ds[..i]) + j] == Container(ds[i].containers[j], ds[i], None, None)
  {
    var head, rest := ds[..i] + [ds[i]], ds[i + 1..];
    var w := Wrap(ds[i], ds[i].containers);
    var k := TotalContainers(ds[..i]) + j;
    assert ds == head + rest;
    assert Flatten(ds) == Flatten(head) + Flatten(rest) by {
      FlattenAppend(head, rest);
    }
    assert Flatten(head) == Flatten(ds[..i]) + w by {
      FlattenSnoc(ds[..i], ds[i]);
    }
    assert Flatten(head)[k] == w[j];
    assert Flatten(ds)[k] == Flatten(head)[k];
  }

  /** Every item comes from a listed deployment and one of its containers,
      with no repository and no pre-update job. */
  lemma {:induction false} FlattenFrom(ds: seq<Kube.Deployment>, k: nat)
    requires k < |Flatten(ds)|
    ensures Flatten(ds)[k].deployment in ds
    ensures Flatten(ds)[k].container in Flatten(ds)[k].deployment.containers
    ensures Flatten(ds)[k].repository.None? && Flatten(ds)[k].beforeUpdate.None?
    decreases |ds|
  {
    var init := ds[..|ds| - 1];
    if k < |Flatten(init)| {
      FlattenFrom(init, k);
    } else {
      var j := k - |Flatten(init)|;
      assert Flatten(ds)[k] == Wrap(ds[|ds| - 1], ds[|ds| - 1].containers)[j];
    }
  }

  /** The nested loop of `NewList`: append one item per container of each
      deployment in turn. */
  method Collect(ds: seq<Kube.Deployment>) returns (items: seq<Container>)
    ensures items == Flatten(ds)
    ensures |items| == TotalContainers(ds)
  {
    items := [];
    var i := 0;
    while i < |ds|
      invariant 0 <= i <= |ds|
      invariant items == Flatten(ds[..i])
    {
      var d := ds[i];
      var j := 0;
      while j < |d.containers|
        invariant 0 <= j <= |d.containers|
        invariant items == Flatten(ds[..i]) + Wrap(d, d.containers[..j])
      {
        assert d.containers[..j + 1][..j] == d.containers[..j];
        items := items + [Container(d.containers[j], d, None, None)];
        j := j + 1;
      }
      assert d.containers[..j] == d.containers;
      assert ds[..i + 1][..i] == ds[..i];
      i := i + 1;
    }
    assert ds[..i] == ds;
  }

  /** `NewList`: parse the `autoupdate` selector, list the namespace's
      deployments with it, and flatten. Either failure is returned at once
      and no list is built. */
  function NewList(
      namespace: string,
      parseSelector: string -> Result<Kube.Selector, Error>,
      listDeployments: (string, Kube.Selector) -> Result<seq<Kube.Deployment>, Error>)
    : (r: Result<ContainerList, Error>)
    ensures parseSelector(AutoupdateLabel).Err? ==>
      r == Err(parseSelector(AutoupdateLabel).error)
    ensures parseSelector(AutoupdateLabel).Ok? ==>
      var listed := listDeployments(namespace, parseSelector(AutoupdateLabel).value);
      && (listed.Err? ==> r == Err(listed.error))
      && (listed.Ok? ==> r.Ok? && r.value.items == Flatten(listed.value))
      && (listed.Ok? ==> |r.value.items| == TotalContainers(listed.value))
      && (listed.Ok? && |listed.value| == 0 ==> r == Ok(ContainerList([])))
  {
    var selector :- parseSelector(AutoupdateLabel);
    var deployments :- listDeployments(namespace, selector);
    Ok(ContainerList(Flatten(deployments)))
  }

  // ------------------------------------------------------------- fixture

  /** The container of the package's test: name `my-container`, image
      `registry.example.com/my-image:1.2.3`, in an otherwise empty deployment. */
  function Fixture(image: string): Container {
    var k := Kube.Container("my-container", image);
    Container(k, Kube.Deployment("", [k]), None, None)
  }

  /** The package test's first expectations: the name is returned unchanged
      and the tag `1.2.3` parses to 1.2.3 without error. */
  lemma FixtureParses()
    ensures GetName(Fixture("registry.example.com/my-image:1.2.3")) == "my-container"
    ensures ParseImageVersion(Fixture("registry.example.com/my-image:1.2.3")) == Fallible(Version(1, 2, 3, [], []), None)
  {
    var v := Version(1, 2, 3, [], []);
    assert Format(v) == "1.2.3";
    assert "registry.example.com/my-image:1.2.3" == "registry.example.com/my-image" + [':'] + ("" + Format(v));
    ImageRoundTrip(Fixture("registry.example.com/my-image:1.2.3"), "registry.example.com/my-image", v, false);
  }

  /** A tag without a dot is not a version: an error and the zero version. */
  /** A tag whose first character after an optional `v` is a letter, such
      as `latest` or `stable.1`, is rejected with the zero version. */
  lemma LetterTag(c: Container, repo: string, tag: string)
    requires ':' !in repo && ':' !in tag
    requires c.container.image == repo + [':'] + tag
    requires var t := if |tag| > 0 && tag[0] == 'v' then tag[1..] else tag;
      |t| > 0 && ('A' <= t[0] <= 'Z' || 'a' <= t[0] <= 'z')
    ensures ParseImageVersion(c).Failed() && ParseImageVersion(c).value == Zero
  {
    ImageTag(c, repo, tag);
    if |tag| > 0 && tag[0] == 'v' {
      LetterLeadRejected(tag[1..]);
    } else {
      LetterLeadRejected(tag);
    }
  }

  lemma DotlessTag(c: Container, repo: string, tag: string)
    requires ':' !in repo && ':' !in tag && '.' !in tag
    requires c.container.image == repo + [':'] + tag
    ensures ParseImageVersion(c).Failed() && ParseImageVersion(c).value == Zero
  {
    ImageTag(c, repo, tag);
    if |tag| > 0 && tag[0] == 'v' {
      assert '.' !in tag[1..];
    }
  }

  /** An image with two colons, as a registry port gives, is an invalid
      image name whatever its tag. */
  lemma TwoColons(c: Container, host: string, rest: string)
    requires ':' in rest
    requires c.container.image == host + [':'] + rest
    ensures ParseImageVersion(c) == Fallible(Zero, Some(InvalidImageName(c.container.image)))
  {
    var i :| 0 <= i < |rest| && rest[i] == ':';
    CountPresent(rest, ':', i);
    CountAppend(host + [':'], rest, ':');
    CountAppend(host, [':'], ':');
    assert Count([':'], ':') == 1;
  }

  /** The tag `latest` is not a version: an error and the zero version. */
  lemma FixtureLatestTag()
    ensures var r := ParseImageVersion(Fixture("registry.example.com/my-image:latest"));
      r.Failed() && r.value == Zero
  {
    var c := Fixture("registry.example.com/my-image:latest");
    assert c.container.image == "registry.example.com/my-image" + [':'] + "latest";
    DotlessTag(c, "registry.example.com/my-image", "latest");
  }

  /** An image without a tag is an invalid image name. */
  lemma Untagged(c: Container)
    requires ':' !in c.container.image
    ensures ParseImageVersion(c) == Fallible(Zero, Some(InvalidImageName(c.container.image)))
  {
    CountAbsent(c.container.image, ':');
  }

  lemma FixtureNoTag()
    ensures ParseImageVersion(Fixture("registry.example.com/my-image")) ==
      Fallible(Zero, Some(InvalidImageName("registry.example.com/my-image")))
  {
    var c := Fixture("registry.example.com/my-image");
    assert ':' !in "registry.example.com/" && ':' !in "my-image";
    assert c.container.image == "registry.example.com/" + "my-image";
    Untagged(c);
  }

  /** A registry port adds a second colon, so even a valid tag is refused. */
  lemma FixtureRegistryPort()
    ensures ParseImageVersion(Fixture("host:5000/img:1.2.3")) ==
      Fallible(Zero, Some(InvalidImageName("host:5000/img:1.2.3")))
  {
    var c := Fixture("host:5000/img:1.2.3");
    var rest := "5000/img:1.2.3";
    assert rest[8] == ':';
    assert c.container.image == "host" + [':'] + rest;
    TwoColons(c, "host", rest);
  }
}
