/** The container-registry side of the decision. In this revision it is a
    stub: no registry is built and the latest version is a constant. */
module Registry {
  import opened Wrappers
  import opened SemVer
  import opened Errors
  import Kube

  /** `.dockercfg` credentials for one registry. */
  datatype Credentials = Credentials(username: string, password: string, email: string, auth: string)

  /** A registry with a name and private credentials. */
  datatype Registry = Registry(name: string, credentials: Option<Credentials>)

  datatype RegistryList = RegistryList(items: seq<Registry>)

  /** The repository an updater container is bound to; its definition is
      not part of this model, only its name is kept. */
  datatype Repository = Repository(name: string)

  /** The tag the stubbed registry reports as the newest one. */
  const LatestTag: string := "100.0.0"

  /** The version `LatestTag` denotes. */
  const Latest: Version := Version(100, 0, 0, [], [])

  /** `NewRegistry`: ignores the deployment and returns a nil registry with
      a nil error. */
  function NewRegistry(deployment: Kube.Deployment): (r: Fallible<Option<Registry>, Error>)
    ensures !r.Failed() && r.value.None?
  {
    Fallible(None, None)
  }

  lemma LatestTagParses()
    ensures Parse(LatestTag) == Ok(Latest)
  {
    assert Format(Latest) == LatestTag;
    ParseFormat(Latest);
  }

  /** `Registry.GetLatestVersion`: parses `LatestTag`, whatever the receiver
      (nil included) and the repository. */
  function GetLatestVersion(r: Option<Registry>, repo: string): (v: Fallible<Version, Error>)
    ensures !v.Failed() && v.value == Latest
    ensures |v.value.pre| == 0 && |v.value.build| == 0
  {
    LatestTagParses();
    Returned(Parse(LatestTag))
  }
}
