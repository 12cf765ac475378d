# deployment-cleanup, modelled in Dafny

The system sweeps away deployments left behind by deleted branches and closed
pull requests. Two programs share one shape:

- **Helm cleanup** (`cmd/helm/helm.go`). It reads the branches and open pull
  requests of every `org/repo` given on the command line. Then it lists the
  Helm releases and deletes each release whose text before the first `-` is
  a configured repository, unless a live branch or pull request of that
  repository derives the same name. A name is derived by `releaseName`. It
  replaces each run of bytes outside `[a-zA-Z0-9]` in the branch with `-`,
  lowercases the result, prefixes the repository verbatim and a `-`, and
  cuts the whole to 53 bytes.
- **Storage cleanup** (`cmd/storage/main.go`). For each configured repository
  it lists the blobs of the container `org-repo`. It deletes each blob whose
  `branch` metadata is not a live branch. `master` always counts as live. A
  missing container means there is nothing to do.

The model is split into modules:

- `GoStrings` (go_strings.dfy): Go's `strings.Split`, `strings.ToLower` on
  ASCII input, and `strconv.Itoa`. Strings are byte sequences, one `char` per
  byte.
- `GitHub` (github.dfy): the branch and pull-request records the host
  returns.
- `Arguments` (arguments.dfy): the reading of the `org/repo` command-line
  arguments.
- `ReleaseNaming` (release_name.dfy): `releaseName`.
- `HelmCleanup` (helm_cleanup.dfy): the Helm program's data, its
  configuration loop and its reconcile loop.
- `StorageCleanup` (storage_cleanup.dfy): the storage program's data, its
  configuration loop, `handleRepo` and the loop over the configuration.

Each loop of the programs is a Dafny `method` with a `while`/`for` loop. It is
proved against a specification function: `Orphans` for the release loop,
`Doomed` for the blob loop, and `SweepRun` for the run over the
configuration. Lemmas then prove what the programs promise about those
functions. External calls are replaced by inputs:

- the GitHub listings are functions from `(org, repo)` to records;
- the release inventory is a sequence of names;
- the outcome of each Helm delete is decided by a set of refused names;
- the blob listing is a `ListResult` value.

Each delete call is recorded in a log that the method returns.

The code does not lowercase the repository (cmd/helm/helm.go:149).
`ReleaseNaming.RepositoryPrefix` states that the repository is kept verbatim.

The release key is the text before the first `-` of a release name. So a
configured repository whose own name contains `-` is never used as a key.
Its releases are judged against the configuration of its first segment, if
that is configured, when that segment and its `-` fit in 53 bytes. A longer
first segment leaves no `-` in the cut name, so those releases are never
deleted. The model keeps this behaviour
(`HelmCleanup.HyphenatedRepositoryNeverKey`,
`HelmCleanup.HyphenatedRepositoryJudgedByPrefix`,
`HelmCleanup.HyphenatedRepositoryLongPrefixKept`).

## Model

| member | source | states |
|---|---|---|
| `ReleaseNaming.ReleaseName` | cmd/helm/helm.go:146-154 | the name is at most 53 bytes long, is a prefix of `repo + "-" + lower(slug(branch))`, and is that whole candidate when it fits, else exactly its first 53 bytes |
| `ReleaseNaming.Slug` | cmd/helm/helm.go:147-148 | replacing runs of bytes outside `[a-zA-Z0-9]` with `-` never lengthens the string, keeps only alphanumerics and `-`, and starts with the first byte if it is alphanumeric, else with `-` |
| `ReleaseNaming.SlugKeepsAlnums` | cmd/helm/helm.go:147-148 | the slug keeps every letter and digit of the branch, in order and with its case |
| `ReleaseNaming.SlugOfWord` | cmd/helm/helm.go:147-148 | a word of letters and digits is kept as it is, case included |
| `ReleaseNaming.SlugAppend` | cmd/helm/helm.go:147-148 | the replacement works piece by piece across any boundary that follows a letter or digit |
| `ReleaseNaming.SlugRun` | cmd/helm/helm.go:147-148 | a maximal run of bytes outside `[a-zA-Z0-9]`, ended by a letter, a digit or the end of the string, becomes exactly one `-` |
| `ReleaseNaming.SlugNoDoubleHyphen` | cmd/helm/helm.go:147-148 | a slug never holds two hyphens in a row |
| `ReleaseNaming.LowerKeepsNoDoubleHyphen` | cmd/helm/helm.go:149 | lowercasing neither creates nor removes hyphens |
| `ReleaseNaming.SlugShape` | cmd/helm/helm.go:147-149 | the lowered slug of any branch is made only of lower-case letters, digits and single hyphens |
| `ReleaseNaming.SlugOfSlug` | cmd/helm/helm.go:147-149 | a string already in slug form is unchanged by the replacement and by lowercasing |
| `ReleaseNaming.SlugIdempotent` | cmd/helm/helm.go:147-149 | slugging and lowering a derived slug again returns it unchanged |
| `ReleaseNaming.EmptyBranch` | cmd/helm/helm.go:146-154 | an empty branch yields `repo + "-"` (cut to 53 bytes when longer) |
| `ReleaseNaming.RepositoryPrefix` | cmd/helm/helm.go:149-151 | when `len(repo) + 1 <= 53` the name starts with the repository verbatim (not lowered) and `-` |
| `ReleaseNaming.DistinctSlugsDistinctNames` | cmd/helm/helm.go:146-154 | below the limit, branches with different slugs get different release names |
| `ReleaseNaming.LongRepositoryIgnoresBranch` | cmd/helm/helm.go:150-152 | truncation is a plain prefix cut: when the repository and its `-` fill 53 bytes, every branch gets the same name |
| `ReleaseNaming.PullRequestIdentityIsSlug` | cmd/helm/helm.go:87 | `"pr-" + Itoa(id)` for a non-negative id is already a slug, so its candidate name is `repo + "-pr-" + Itoa(id)` |
| `ReleaseNaming.DistinctPullRequestsDistinctNames` | cmd/helm/helm.go:86-87 | below the limit, distinct pull requests get distinct release names |
| `GoStrings.ToLower` | cmd/helm/helm.go:149 | lowercasing keeps the length and maps each byte on its own, changing only `A`..`Z` |
| `GoStrings.Split` | cmd/helm/helm.go:68 | splitting always yields at least one piece |
| `GoStrings.SplitHead` | cmd/helm/helm.go:68-70 | the first piece is the separator-free text before the first separator; there are several pieces exactly when the separator occurs |
| `GoStrings.JoinSplit` | cmd/helm/helm.go:68 | joining the pieces with the separator gives back the string, and no piece contains the separator |
| `GoStrings.DecimalDigits` | cmd/helm/helm.go:87 | the decimal rendering is non-empty, all digits, and has no leading zero |
| `GoStrings.DecimalRoundTrip` | cmd/helm/helm.go:87 | reading back the rendered digits gives the number |
| `GoStrings.ItoaInjective` | cmd/helm/helm.go:87 | distinct integers are rendered differently by `Itoa` |
| `Arguments.OrgPart` | cmd/helm/helm.go:50-51 | the organisation is the slash-free prefix of the argument that is followed by its first `/` (the whole argument when it has none) |
| `Arguments.RepoPart` | cmd/storage/main.go:40-41 | the repository is the slash-free text that follows the organisation and the first `/`, and is followed by the second `/` or the end of the argument |
| `Arguments.ArgumentParts` | cmd/storage/main.go:39-41 | an argument written as `org/repo`, possibly followed by further `/` segments, reads back as that organisation and that repository |
| `Arguments.LastArgument` | cmd/storage/main.go:38-42 | the argument that decides a repository's entry names it, and no later argument does |
| `HelmCleanup.InitializeRepositoryData` | cmd/helm/helm.go:111-143 | the branch names and pull-request numbers are copied in listing order, with their lengths kept |
| `HelmCleanup.BuildConfig` | cmd/helm/helm.go:48-52 | the configuration has one entry per repository named on the command line, built from the organisation of the last argument naming it |
| `HelmCleanup.RepoKey` | cmd/helm/helm.go:68-71 | a key exists exactly when the name has a `-`, and it is the hyphen-free text before the first `-` |
| `HelmCleanup.KeyOfPrefixedName` | cmd/helm/helm.go:68-71 | a name starting with a hyphen-free repository and `-` has that repository as its key |
| `HelmCleanup.MatchBranches` | cmd/helm/helm.go:76-83 | the branch loop sets `match` exactly when some live branch derives the release's name |
| `HelmCleanup.MatchPullRequests` | cmd/helm/helm.go:85-91 | the pull-request loop sets `match` exactly when some open pull request's identity `pr-<number>` derives the release's name |
| `HelmCleanup.MatchRelease` | cmd/helm/helm.go:74-91 | the `match` flag ends true exactly when some live branch or open pull request derives the release's name |
| `HelmCleanup.Reconcile` | cmd/helm/helm.go:66-107 | the delete log holds one call per orphan release, in listing order, and records a refused delete as failed without stopping the loop |
| `HelmCleanup.OrphansMembership` | cmd/helm/helm.go:67-97 | a release is deleted exactly when it is listed, its key is configured, and nothing live derives its name |
| `HelmCleanup.OrphanOccurrences` | cmd/helm/helm.go:93-103 | each listed occurrence of an orphan gets exactly one delete call, and nothing else gets any |
| `HelmCleanup.UnmanagedReleasesKept` | cmd/helm/helm.go:68-73 | a release without `-`, or whose key is not configured, is never deleted |
| `HelmCleanup.OrphansIgnoreListingOrder` | cmd/helm/helm.go:74-93 | the verdicts depend only on which branches and pull requests are live, not on their order |
| `HelmCleanup.LiveReleasesKept` | cmd/helm/helm.go:76-91 | releases derived from a live branch or open pull request of any configured, hyphen-free repository are never deleted, whatever the repository's length |
| `HelmCleanup.OwnReleaseKept` | cmd/helm/helm.go:68-91 | one live branch's release is kept: its key is the repository when `len(repo) + 1 <= 53`, and otherwise the cut name has no `-` at all |
| `HelmCleanup.HyphenatedRepositoryNeverKey` | cmd/helm/helm.go:68-71 | a configured repository whose name contains `-` is never the key of any release |
| `HelmCleanup.HyphenatedRepositoryJudgedByPrefix` | cmd/helm/helm.go:68-93 | when a hyphen-free `prefix` and its `-` fit in 53 bytes, a release of repository `prefix-rest` (of any length) is deleted exactly when `prefix` is configured and nothing live in `prefix` derives its name |
| `HelmCleanup.HyphenatedRepositoryLongPrefixKept` | cmd/helm/helm.go:68-71 | when the first segment of a repository `prefix-rest` is 53 bytes or longer, the cut release name has no `-`, so it has no key and is never deleted, even when `prefix` is configured |
| `StorageCleanup.InitializeRepositoryData` | cmd/storage/main.go:89-111 | the branch list has one more entry than the listing, keeps the listed names in order, and ends with `master` |
| `StorageCleanup.BuildConfig` | cmd/storage/main.go:38-42 | the configuration has one entry per repository named on the command line, built from the organisation of the last argument naming it |
| `StorageCleanup.KeepBlob` | cmd/storage/main.go:71-77 | `keep` ends true exactly when the blob's branch metadata (empty if absent) equals some branch |
| `StorageCleanup.HandleRepo` | cmd/storage/main.go:54-86 | a missing container gives no deletes and a normal return; any other listing error ends the run; otherwise each blob not kept gets one delete at `container + "/" + name`, in listing order |
| `StorageCleanup.DoomedMembership` | cmd/storage/main.go:70-84 | a listed blob is deleted exactly when its branch tag is not a live branch |
| `StorageCleanup.DoomedOccurrences` | cmd/storage/main.go:79-84 | each listed occurrence of a doomed blob gets exactly one delete call |
| `StorageCleanup.DoomedIgnoresBranchOrder` | cmd/storage/main.go:73-77 | the verdicts depend only on which branches are live, not on their order |
| `StorageCleanup.ProtectedBlobsKept` | cmd/storage/main.go:100-104 | a blob tagged `master` is never deleted from a configured repository's container |
| `StorageCleanup.UntaggedBlobsDeleted` | cmd/storage/main.go:74 | a blob without `branch` metadata is deleted unless the empty string is a live branch |
| `StorageCleanup.DeleteAddresses` | cmd/storage/main.go:57-81 | each delete goes to the container address `https://<account>.blob.core.windows.net/<org>-<repo>` followed by `/` and the blob's name |
| `StorageCleanup.Sweep` | cmd/storage/main.go:49-51 | the run over the configuration visits each repository once and stops at the first fatal listing error |
| `StorageCleanup.SweepRunStaysFatal` | cmd/storage/main.go:49-68 | once a listing error ends the run, no later repository is visited |
| `StorageCleanup.SweepFatalIff` | cmd/storage/main.go:49-68 | a run ends fatally exactly when some repository's listing fails with an error other than a missing container |

## Left out

- GitHub access (token source, client, `ListBranches`, `PullRequests.List`) is not modelled. Its answers are function parameters. As in the programs, they stand for the first page of results only (cmd/helm/helm.go:117-118, 128-129). Their fatal error paths end the process and are not modelled.
- Kubernetes and Tiller connection setup (`setupConnection`, `getKubeClient`, `configForContext`, `ensureHelmClient`, `newClient`, TLS options) is foreign-library plumbing and is not modelled.
- `ListReleases` is replaced by the sequence of release names. Its error is only logged by the program; the model treats it as an empty listing.
- `DeleteRelease` is replaced by a log entry. Its success is decided by the set `rejected` of names the backend refuses. So the model assumes a delete's outcome depends only on the release name.
- `ListBlobsFlatSegment` is replaced by a `ListResult` for the first segment only (empty marker, cmd/storage/main.go:59). Blob `Delete` is replaced by the address it is sent to. Its result is ignored, as in the program.
- `url.Parse` and `u.String()` are not modelled. Addresses are plain concatenation, which assumes parsing and printing the URL gives back the formatted string. A failed parse is not modelled either: cmd/storage/main.go:81 discards the parse error, so a blob name that `url.Parse` rejects (such as one with a `%` not followed by two hex digits) makes the program dereference a nil URL and panic in the middle of the blob loop, while the model records that delete and goes on. The concatenation assumption can also fail without any parse error. `url.Parse` splits off a `#...` fragment and a `?...` query and decodes a valid `%XX` escape in the path. So the delete for a doomed blob named `x#old` or `x?old` reaches blob `x`, and the delete for a blob named `%41` reaches blob `A`, which may be a blob the program decided to keep (for example one tagged `master`). `StorageCleanup.ProtectedBlobsKept` and `StorageCleanup.DoomedMembership` are about the program's verdicts, not about which blob each request reaches.
- Shared-key credentials, pipelines, environment variables, logging and `os.Exit` are not modelled. `log.Fatal` is the `Fatal` outcome.
- Malformed `org/repo` arguments, which make the program index out of range, are excluded by the precondition that every argument contains `/`.
- The Helm `main` composes the configuration loop, the release listing and the reconcile loop. That composition is not a member of its own. `BuildConfig` and `Reconcile` model its two loops.
- `strings.ToLower` is modelled on ASCII only. Its argument is always the slug, which is ASCII.
- Go's `int` is modelled as an unbounded integer. Pull-request numbers are small positive numbers, so 64-bit overflow does not arise.
- Go's random map iteration order in the storage `main` is the `order` parameter of `Sweep`.
