# k8s-updater: the version decision, in Dafny

`k8s-updater` watches the Kubernetes deployments labelled `autoupdate`. For
every container in their pod templates it reads the version from the image
tag and asks the container registry for the latest version. When the latest
version is strictly greater under Semantic Versioning 2.0.0 precedence, it
asks for the deployment to be updated. This project models the pure core of
that loop and proves properties about it.

- **Image tag extraction** (`Updater.ParseImageVersion`): the image is split
  on every `:`; anything other than exactly two pieces is an invalid image
  name, returned together with the zero version. The tag is parsed by a
  tolerant Semantic Versioning parser (`SemVer.ParseTolerant`, after
  `github.com/blang/semver`).
- **Latest version** (`Updater.GetLatestVersion`, `Registry.*`): the
  repository is the text before the first `:`. In this revision the registry
  is a stub: `NewRegistry` returns neither a registry nor an error, and every
  lookup answers `100.0.0`.
- **Discovery** (`Updater.NewList`, `Updater.Collect`): the selector is parsed
  and the deployments are listed. Either failure is returned at once. The
  listed deployments are flattened into one item per pod-template container,
  deployment by deployment, then in container order.
- **The update run** (`Cmd.UpdateRun`, `Cmd.Update`): a listing failure ends
  the run; an empty list only warns. Every listed item is then examined in
  order (which container an item shows is discussed under `Updater.Flatten`
  in "Left out"), and an update is requested exactly when `latest.GT(current)`. Lookup
  errors are only logged: the comparison runs on whatever value came back.
  `GetImageVersion` is not part of this model; where the model fixes it, it
  is taken to return what `ParseImageVersion` returns, which is the zero
  version on error.
- **Precedence** (`Precedence.Compare`, `Precedence.GT`): section 11 of
  Semantic Versioning 2.0.0, proved to be a strict total order on precedence
  classes in which build metadata plays no part.

Modules follow the program: `Wrappers` (Option, Result, and Go's
value-plus-error pair `Fallible`), `Strings` (the `strings` functions used),
`Decimal` (`strconv` for `uint64`), `SemVer`, `Precedence`, `Errors`, `Kube`
(the Kubernetes objects, reduced to the fields read), `Registry`, `Updater`
(`pkg/updater`) and `Cmd` (`cmd/updater.go`).

The cluster client, the label-selector parser, `GetImageVersion` and
`UpdateDeployment` are parameters of the model: `parseSelector`,
`listDeployments` and the `Cmd.Probes` bundle.

Three facts about this revision's code shape the model:
- the tag is what follows the only `:` of the image;
- a lookup error is logged and the container is not skipped; if
  `GetImageVersion` returns the zero version with its error, as
  `ParseImageVersion` does, the container is updated
  (`Cmd.UnreadableVersionStillUpdated`);
- the latest version is the constant `100.0.0`.

## Model

| member | source | states |
|---|---|---|
| Strings.Split | pkg/updater/operations.go:20 | The split has at least one piece, and no piece contains the separator |
| Strings.SplitCount | pkg/updater/operations.go:20-21 | Splitting on `:` yields exactly one more piece than the image has colons, so "two pieces" means "exactly one colon" |
| Strings.SplitHead | pkg/updater/operations.go:35-40 | The first piece of a split is the longest separator-free prefix of the string |
| Strings.SplitJoin | pkg/updater/operations.go:20 | Splitting a join of separator-free pieces gives the pieces back |
| Strings.JoinSplit | pkg/updater/operations.go:20 | Joining the pieces of a split gives the original string back |
| SemVer.Parse | pkg/registry/operations.go:13 | The empty string is rejected as empty, a string without `.` is rejected, and every accepted version is well-formed |
| SemVer.ParseTolerant | pkg/updater/operations.go:25 | The same three statements hold for the tolerant parse |
| SemVer.ParseNumber | pkg/updater/operations.go:25 | A number part is accepted exactly when it is a nonempty digit string without a leading zero and within `uint64`, and its value prints back as the same text; an empty part is a syntax error and an over-long one a range error |
| SemVer.ParseIdentifiers | pkg/updater/operations.go:25 | Accepted pre-release identifiers are valid and print back as the input pieces |
| SemVer.ParseBuild | pkg/updater/operations.go:25 | Build identifiers are accepted exactly when each is nonempty and alphanumeric, and they are kept verbatim |
| SemVer.ParseFormat | pkg/registry/operations.go:13 | Parsing the printed form of a well-formed version gives that version back |
| SemVer.FormatParse | pkg/registry/operations.go:13 | Every accepted string is the printed form of the well-formed version it parses to |
| SemVer.ParseIff | pkg/registry/operations.go:13 | `Parse(s) == Ok(v)` exactly when `v` is well-formed and `s` is its printed form |
| SemVer.ParseTolerantIff | pkg/updater/operations.go:25 | The tolerant parse accepts exactly the printed forms of well-formed versions, with or without one leading `v` |
| SemVer.FormatAvoids | pkg/updater/operations.go:20-25 | A printed version contains no character outside identifiers, `.` and `+`; in particular no `:` |
| Precedence.Compare | cmd/updater.go:30 | The comparison is -1, 0 or 1, and 0 exactly when the two versions have the same precedence |
| Precedence.GT | cmd/updater.go:30 | A version is never greater than one with the same precedence |
| Precedence.ReleaseNumbersOrdered | cmd/updater.go:30 | When the release numbers differ, `GT` holds exactly when the first differing one of major, minor, patch is larger (section 11.2 of Semantic Versioning 2.0.0) |
| Precedence.IdentifierOrder | cmd/updater.go:30 | Numeric pre-release identifiers compare numerically, an alphanumeric identifier is above every numeric one, and two alphanumeric ones compare as text (section 11.4) |
| Precedence.FirstDifferenceDecides | cmd/updater.go:30 | Two pre-release lists with a common prefix are ordered by their first differing identifier, whatever follows |
| Precedence.LongerListGreater | cmd/updater.go:30 | A pre-release list is greater than any proper prefix of it |
| Precedence.LongerPrereleaseGreater | cmd/updater.go:30 | With equal release numbers, a pre-release extending another's identifiers is the greater version |
| Precedence.TextOrder | cmd/updater.go:30 | Alphanumeric identifiers compare character by character, the first differing character deciding (section 11.4.2 of Semantic Versioning 2.0.0) |
| Precedence.LongerTextGreater | cmd/updater.go:30 | An alphanumeric identifier is greater than every proper prefix of it |
| Precedence.CompareLaws | cmd/updater.go:30 | Comparison is three-valued, antisymmetric, and zero exactly when the two versions agree on everything except build metadata |
| Precedence.CompareTransitive | cmd/updater.go:30 | `GT` is transitive |
| Precedence.GreaterIsStrictOrder | cmd/updater.go:30 | `GT` is irreflexive, asymmetric and transitive, and any two versions are ordered unless they have the same precedence |
| Precedence.StandardExample | cmd/updater.go:30 | The example chain of section 11.4 of Semantic Versioning 2.0.0, from 1.0.0-alpha up to 1.0.0, is strictly increasing |
| Errors.Returned | pkg/updater/operations.go:25 | A parse seen from Go fails exactly when the parse fails, and then carries the zero version |
| Registry.NewRegistry | pkg/registry/operations.go:8-10 | Construction never fails and yields no registry |
| Registry.LatestTagParses | pkg/registry/operations.go:13 | The stub's tag `100.0.0` parses to version 100.0.0 |
| Registry.GetLatestVersion | pkg/registry/operations.go:12-14 | For any receiver (nil included) and any repository: no error, version 100.0.0, no pre-release and no build identifiers |
| Updater.GetName | pkg/updater/operations.go:14-16 | The name is the container's name field |
| Updater.ParseImageVersion | pkg/updater/operations.go:19-26 | The result is an invalid-image-name error with the zero version exactly when the image does not have exactly one `:`; every error carries the zero version |
| Updater.ImageTag | pkg/updater/operations.go:20-25 | For an image `repo:tag` with one colon, the result is the tolerant parse of `tag` |
| Updater.ImageRoundTrip | pkg/updater/operations.go:19-26 | An image tagged with the printed form of a well-formed version, with or without `v`, yields that version and no error |
| Updater.ImageIff | pkg/updater/operations.go:19-26 | An image yields version `v` without error exactly when it is its repository, `:`, and the printed well-formed `v`, optionally preceded by `v` |
| Updater.ImageAccepted | pkg/updater/operations.go:19-26 | An image read without error has the shape `repo:` plus the printed version, with or without `v` |
| Updater.SingleColon | pkg/updater/operations.go:20-21 | An image with exactly one colon is its repository, the colon, and a colon-free tag |
| Updater.LetterTag | pkg/updater/operations.go:25 | A tag whose first character after an optional `v` is a letter is rejected with the zero version, because its major part is not a number |
| Updater.DotlessTag | pkg/updater/operations.go:25 | A tag without a dot, such as `latest`, is rejected with the zero version |
| Updater.TwoColons | pkg/updater/operations.go:20-24 | An image with two colons is an invalid image name, even when its tag is a valid version |
| Updater.Untagged | pkg/updater/operations.go:20-24 | An image without a colon is an invalid image name with the zero version |
| Updater.FixtureParses | pkg/updater/operations_test.go:13-31 | The test container's name is `my-container`, and its tag `1.2.3` reads as 1.2.3 without error |
| Updater.FixtureLatestTag | pkg/updater/operations_test.go:33-38 | The tag `latest` fails with the zero version |
| Updater.FixtureNoTag | pkg/updater/operations_test.go:40-45 | An image without a tag fails with the zero version |
| Updater.FixtureRegistryPort | pkg/updater/operations.go:20-24 | `host:5000/img:1.2.3` is an invalid image name |
| Updater.RepositoryOf | pkg/updater/operations.go:35-40 | The repository is a colon-free prefix of the image that ends at the first colon or at the end of the image |
| Updater.GetDockerRegistry | pkg/updater/operations.go:29-31 | Never fails and yields no registry |
| Updater.LatestVersionVia | pkg/updater/operations.go:34-41 | A registry-construction error is returned with the zero version; otherwise the registry is asked about the text before the first `:` |
| Updater.GetLatestVersion | pkg/updater/operations.go:34-41 | With this revision's registry, every container gets 100.0.0 and no error |
| Updater.Flatten | pkg/updater/operations.go:57-66 | The flattening has as many items as the listed deployments have containers |
| Updater.Wrap | pkg/updater/operations.go:59-64 | One item per container of a deployment, in order, each naming that deployment, with no repository and no pre-update job |
| Updater.FlattenSnoc | pkg/updater/operations.go:58-66 | A deployment listed last contributes its items last, one per container |
| Updater.FlattenAppend | pkg/updater/operations.go:58-66 | Flattening distributes over concatenation of deployment lists, and so do the container counts |
| Updater.FlattenAt | pkg/updater/operations.go:58-66 | The `j`-th container of the `i`-th deployment is item number `TotalContainers(ds[..i]) + j`, so the order is by deployment, then by container |
| Updater.FlattenFrom | pkg/updater/operations.go:58-64 | Every item comes from a listed deployment and one of its containers |
| Updater.Collect | pkg/updater/operations.go:57-66 | The nested loop produces exactly the flattening, whose length is the total container count |
| Updater.NewList | pkg/updater/operations.go:44-69 | A selector error or a listing error is returned at once; otherwise the items are exactly the flattening of the listed deployments, one per container, and no deployments give an empty list |
| Cmd.Examine | cmd/updater.go:18-36 | An update is requested exactly when the latest version is `GT` the current one; `UpdateDeployment` is then called with the latest version, and its result is what the step records |
| Cmd.Steps | cmd/updater.go:17-36 | One step per item, in list order, each the examination of that item |
| Cmd.UpdateRun | cmd/updater.go:9-37 | A listing error ends the run with that error before any container is examined; otherwise it warns exactly when the list is empty, and its steps are exactly the examination of each listed item, in order |
| Cmd.Update | cmd/updater.go:9-37 | The loop computes the same run as the fold, and each of its updates is requested exactly when the latest version is greater |
| Cmd.NoUpdateUnlessNewer | cmd/updater.go:30-34 | A latest version with the same precedence as the current one, or lower, never triggers an update |
| Cmd.UpdateResultIgnored | cmd/updater.go:32 | The result of `UpdateDeployment` is discarded: two runs that differ only in it examine the same containers, see the same versions and request the same updates |
| Cmd.StepsIndependent | cmd/updater.go:17-36 | The loop has no early exit: every container gets a step, and that step is its own examination whatever comes before or after it |
| Cmd.Stubbed | cmd/updater.go:18-23 | Taking `GetImageVersion` to be `ParseImageVersion`, every container's latest version is 100.0.0 without error |
| Cmd.UnreadableVersionStillUpdated | cmd/updater.go:18-32 | If `GetImageVersion` returns the zero version with its error, as `ParseImageVersion` does, a container whose version cannot be read is still updated, to 100.0.0 |
| Cmd.StubbedDecision | cmd/updater.go:30-32 | With this revision's lookups, an image tagged with version `v` is updated exactly when 100.0.0 is greater than `v` |
| Cmd.FixtureUpdated | cmd/updater.go:30-32 | The test container, tagged 1.2.3, is updated to 100.0.0 |

## Left out

- `github.com/blang/semver` is not part of this model. `SemVer` follows that
  package's documented `Parse`, `ParseTolerant` and `Compare`. Its error
  texts become the `ParseError` variants.
- SemVer.ParseTolerant: does not trim white space, does not pad short
  versions such as `1.2` to `1.2.0`, and does not remove leading zeros (so
  `01.2.3` is rejected with `LeadingZeroes` rather than read as 1.2.3).
  Whether the package does any of these depends on its version, which is
  not part of this model. The exact acceptance sets of
  `SemVer.ParseTolerantIff` and `Updater.ImageIff`, and the statement about
  short tags in `Updater.DotlessTag`, inherit this; `Updater.LetterTag`
  does not depend on it.
- Updater.Flatten: records, for each append, the container and deployment
  the loop is visiting. The Go code stores the addresses `&c` and `&d` of
  the loop variables. Under the loop-variable semantics before Go 1.22 these
  are shared by all iterations, so every stored pointer can end up showing
  the last container and deployment. Then, for a deployment listing
  containers A and B, `cmd/updater.go:18-32` reads B twice and never
  examines A, and every `UpdateDeployment` call sees the last listed
  deployment. The language version in force is not part of this model, so
  the model does not claim that each item refers to a distinct container;
  only the count and the order of the items are claimed for the pointers.
- Cmd.Stubbed: `GetImageVersion` is not part of this model. `Cmd.Stubbed`,
  and with it `Cmd.UnreadableVersionStillUpdated` and `Cmd.StubbedDecision`,
  assume it returns the pair `ParseImageVersion` returns: the zero version
  together with the error. If it returned a nil pointer on error instead,
  `cmd/updater.go:28` would first use it, in `version.String()`; that case is not modelled.
- Cmd.StepsIndependent: the lookups are modelled as pure functions of the
  container value, and so is `Cmd.UpdateResultIgnored`'s comparison. If
  `UpdateDeployment` changes the cluster, later lookups could see that. If
  the items share the `&c`/`&d` pointers described under `Updater.Flatten`,
  every lookup, the first included, reads the aliased container rather than
  the one the item was created for. Only the absence of an early exit and
  the discarded result are shown by `cmd/updater.go:17` and `:32`.
- `GetImageVersion`, `GetDeploymentName`, `UpdateDeployment` and
  `UpdateImageVersion` are not part of this model. The first and third are
  parameters of the run (`Cmd.Probes`). `GetDeploymentName` is used only in
  a log message. No image rewrite and no pre-update job is invented.
- `cmd/updater.go` reads `.Semver` and dereferences `*latest` on values
  whose types are not part of this model. Both lookups are taken to return a
  version and an error. A nil pointer that such a lookup might return on
  error is not modelled.
- Log messages, `log.Fatalln`'s process exit (modelled as the `Fatal` run),
  and the internals of the label-selector parser (a parameter) are left out.
- The cluster client (`k.Deployments(namespace).List`) and the `namespace`
  variable are parameters.
- `cmd/root.go` (flags, configuration, client construction),
  `pkg/util/util.go` (client creation and pod deletion) and
  `pkg/registry/transport.go` (an HTTP transport adding Basic
  authentication) are plumbing around the core and are not modelled.
- `ParseImageVersion` leaves the container unchanged because every function
  here is pure; no separate statement is made.
- `Registry.Repository` and `Kube.Job` keep only a name. Their definitions
  are not part of this model, and the updater never sets either field.
- `Updater.GetName` returns the name field. That it does so unchanged is
  stated for the test container in `Updater.FixtureParses`.
