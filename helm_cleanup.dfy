/**
 * The Helm cleanup (cmd/helm/helm.go): read the configured repositories'
 * branches and open pull requests, then delete every deployed release whose
 * name belongs to a configured repository but matches none of its live
 * branches and pull requests.
 *
 * Tiller is not modelled: the release listing is the sequence `releases`, and
 * each `DeleteRelease` call is recorded in a log together with its outcome,
 * which the backend decides (`rejected` holds the names it refuses to
 * delete).
 */
module HelmCleanup {
  import opened GoStrings
  import opened GitHub
  import opened Arguments
  import opened ReleaseNaming

  /** What is known about one configured repository. */
  datatype RepositoryData = RepositoryData(orgName: string, branches: seq<string>, pullRequests: seq<int>)

  /** One `DeleteRelease` call: the release it names and whether it succeeded. */
  datatype DeleteAttempt = DeleteAttempt(release: string, deleted: bool)

  /** `initializeRepositoryData`: copy the listed branch names and pull-request
      numbers into fresh arrays, in listing order. */
  method InitializeRepositoryData(orgName: string, branches: seq<Branch>, prs: seq<PullRequest>)
    returns (data: RepositoryData)
    ensures data.orgName == orgName
    ensures |data.branches| == |branches|
    ensures forall i :: 0 <= i < |branches| ==> data.branches[i] == branches[i].name
    ensures |data.pullRequests| == |prs|
    ensures forall i :: 0 <= i < |prs| ==> data.pullRequests[i] == prs[i].number
  {
    var branchNames := new string[|branches|];
    for i := 0 to |branches|
      invariant forall k :: 0 <= k < i ==> branchNames[k] == branches[k].name
    {
      branchNames[i] := branches[i].name;
    }
    var names := branchNames[..];
    var pullRequestIDs := new int[|prs|];
    for i := 0 to |prs|
      invariant forall k :: 0 <= k < i ==> pullRequestIDs[k] == prs[k].number
    {
      pullRequestIDs[i] := prs[i].number;
    }
    data := RepositoryData(orgName, names, pullRequestIDs[..]);
  }

  /** The data `InitializeRepositoryData` builds from the host's answer. */
  function Fetched(org: string, repo: string, listBranches: Listing, listPullRequests: PullRequestListing): RepositoryData
  {
    RepositoryData(org, BranchNames(listBranches(org, repo)), PullRequestNumbers(listPullRequests(org, repo)))
  }

  /** The loop over the `org/repo` arguments filling the global `config` map:
      one entry per repository name, taken from the last argument naming it. */
  method BuildConfig(args: seq<string>, listBranches: Listing, listPullRequests: PullRequestListing)
    returns (config: map<string, RepositoryData>)
    requires forall a :: a in args ==> IsRepositoryArgument(a)
    ensures config.Keys == RepoNames(args)
    ensures forall repo :: repo in config ==>
              config[repo] == Fetched(OrgPart(args[LastArgument(args, repo)]), repo, listBranches, listPullRequests)
  {
    config := map[];
    for i := 0 to |args|
      invariant config.Keys == RepoNames(args[..i])
      invariant forall repo :: repo in config ==>
                  config[repo] == Fetched(OrgPart(args[LastArgument(args[..i], repo)]), repo, listBranches, listPullRequests)
    {
      var org, repo := OrgPart(args[i]), RepoPart(args[i]);
      var data := InitializeRepositoryData(org, listBranches(org, repo), listPullRequests(org, repo));
      assert data == Fetched(org, repo, listBranches, listPullRequests);
      ArgumentStep(args, i);
      config := config[repo := data];
    }
    assert args[..|args|] == args;
  }

  /** The repository key of a release: the text before its first `-`, or
      nothing when the name has no `-`. */
  function RepoKey(name: string): (key: Option<string>)
    ensures key.Some? <==> '-' in name
    ensures key.Some? ==> '-' !in key.value && key.value + "-" <= name
  {
    SplitHead(name, '-');
    var parts := Split(name, '-');
    if |parts| > 1 then Some(parts[0]) else None
  }

  /** A name that starts with a hyphen-free `repo` and a hyphen has key `repo`. */
  lemma KeyOfPrefixedName(repo: string, name: string)
    requires '-' !in repo && repo + "-" <= name
    ensures RepoKey(name) == Some(repo)
  {
    var rest := name[|repo| + 1..];
    assert name == repo + ['-'] + rest;
    SplitAfterPrefix(repo, '-', rest);
  }

  /** Some live branch or open pull request of `repo` derives `name`. */
  predicate IsLive(repo: string, data: RepositoryData, name: string)
  {
    BranchDerives(repo, data.branches, name) || PullRequestDerives(repo, data.pullRequests, name)
  }

  /** A release is deleted when its key is a configured repository and none of
      that repository's live branches and pull requests derives its name. */
  predicate IsOrphan(config: map<string, RepositoryData>, name: string)
  {
    match RepoKey(name)
    case None => false
    case Some(key) => key in config && !IsLive(key, config[key], name)
  }

  /** The orphans among the listed releases, in listing order. */
  function Orphans(config: map<string, RepositoryData>, releases: seq<string>): seq<string>
  {
    if releases == [] then []
    else
      var name := releases[|releases| - 1];
      Orphans(config, releases[..|releases| - 1]) + (if IsOrphan(config, name) then [name] else [])
  }

  /** The log of delete calls issued for `orphans`, one per orphan. */
  function Attempts(orphans: seq<string>, rejected: set<string>): seq<DeleteAttempt>
  {
    seq(|orphans|, i requires 0 <= i < |orphans| => DeleteAttempt(orphans[i], orphans[i] !in rejected))
  }

  /** Some live branch of `repo` derives `name`. */
  predicate BranchDerives(repo: string, branches: seq<string>, name: string)
  {
    exists b :: b in branches && ReleaseName(repo, b) == name
  }

  /** Some open pull request of `repo` derives `name`. */
  predicate PullRequestDerives(repo: string, prs: seq<int>, name: string)
  {
    exists p :: p in prs && ReleaseName(repo, PullRequestIdentity(p)) == name
  }

  /** The "Check branches" loop: compare the release name with the name
      derived from every branch. */
  method MatchBranches(repoName: string, branches: seq<string>, name: string) returns (matched: bool)
    ensures matched <==> BranchDerives(repoName, branches, name)
  {
    matched := false;
    for j := 0 to |branches|
      invariant matched <==> BranchDerives(repoName, branches[..j], name)
    {
      var releaseName := ReleaseName(repoName, branches[j]);
      if releaseName == name {
        matched := true;
      }
      assert branches[..j + 1] == branches[..j] + [branches[j]];
    }
    assert branches[..|branches|] == branches;
  }

  /** The "Check pull requests" loop: compare the release name with the name
      derived from every open pull request. */
  method MatchPullRequests(repoName: string, prs: seq<int>, name: string) returns (matched: bool)
    ensures matched <==> PullRequestDerives(repoName, prs, name)
  {
    matched := false;
    for j := 0 to |prs|
      invariant matched <==> PullRequestDerives(repoName, prs[..j], name)
    {
      var releaseName := ReleaseName(repoName, PullRequestIdentity(prs[j]));
      if releaseName == name {
        matched := true;
      }
      assert prs[..j + 1] == prs[..j] + [prs[j]];
    }
    assert prs[..|prs|] == prs;
  }

  /** The `match` flag for one release: set by the branch loop, then by the
      pull-request loop. */
  method MatchRelease(repoName: string, data: RepositoryData, name: string) returns (matched: bool)
    ensures matched <==> IsLive(repoName, data, name)
  {
    var onBranch := MatchBranches(repoName, data.branches, name);
    var onPullRequest := MatchPullRequests(repoName, data.pullRequests, name);
    matched := onBranch || onPullRequest;
  }

  /** The release loop of `main`: one delete call per orphan, in listing
      order; a failed delete is only logged and the loop goes on. */
  method Reconcile(config: map<string, RepositoryData>, releases: seq<string>, rejected: set<string>)
    returns (log: seq<DeleteAttempt>)
    ensures log == Attempts(Orphans(config, releases), rejected)
  {
    log := [];
    for i := 0 to |releases|
      invariant log == Attempts(Orphans(config, releases[..i]), rejected)
    {
      var name := releases[i];
      assert releases[..i + 1][..i] == releases[..i];
      var parts := Split(name, '-');
      if |parts| > 1 {
        var repoName := parts[0];
        if repoName in config {
          var matched := MatchRelease(repoName, config[repoName], name);
          if !matched {
            log := log + [DeleteAttempt(name, name !in rejected)];
          }
        }
      }
    }
    assert releases[..|releases|] == releases;
  }

  /** A release is deleted exactly when it is listed and is an orphan. */
  lemma {:induction false} OrphansMembership(config: map<string, RepositoryData>, releases: seq<string>, name: string)
    ensures name in Orphans(config, releases) <==> name in releases && IsOrphan(config, name)
  {
    if releases != [] {
      var init := releases[..|releases| - 1];
      OrphansMembership(config, init, name);
      assert releases == init + [releases[|releases| - 1]];
    }
  }

  /** Every occurrence of an orphan in the listing gets exactly one delete
      call, and nothing else is deleted. */
  lemma {:induction false} OrphanOccurrences(config: map<string, RepositoryData>, releases: seq<string>, name: string)
    ensures multiset(Orphans(config, releases))[name] ==
            if IsOrphan(config, name) then multiset(releases)[name] else 0
  {
    if releases != [] {
      var init := releases[..|releases| - 1];
      OrphanOccurrences(config, init, name);
      assert releases == init + [releases[|releases| - 1]];
    }
  }

  /** Releases without a hyphen, or whose key is not configured, are never
      deleted. */
  lemma {:induction false} UnmanagedReleasesKept(config: map<string, RepositoryData>, releases: seq<string>, name: string)
    requires '-' !in name || RepoKey(name).value !in config
    ensures name !in Orphans(config, releases)
  {
    OrphansMembership(config, releases, name);
  }

  /** The verdict depends only on which branches and pull requests are live,
      not on the order the host listed them in. */
  lemma {:induction false} OrphansIgnoreListingOrder(c1: map<string, RepositoryData>, c2: map<string, RepositoryData>, releases: seq<string>)
    requires c1.Keys == c2.Keys
    requires forall k, b :: k in c1 ==> (b in c1[k].branches <==> b in c2[k].branches)
    requires forall k, p :: k in c1 ==> (p in c1[k].pullRequests <==> p in c2[k].pullRequests)
    ensures Orphans(c1, releases) == Orphans(c2, releases)
  {
    if releases != [] {
      OrphansIgnoreListingOrder(c1, c2, releases[..|releases| - 1]);
      var name := releases[|releases| - 1];
      match RepoKey(name)
      case None =>
      case Some(key) =>
        if key in c1 {
          assert IsLive(key, c1[key], name) <==> IsLive(key, c2[key], name);
        }
    }
  }

  /** The releases the pipeline made for a live branch or open pull request of
      a configured repository whose name has no hyphen are kept. */
  lemma LiveReleasesKept(config: map<string, RepositoryData>, repo: string)
    requires repo in config && '-' !in repo
    ensures forall b :: b in config[repo].branches ==> !IsOrphan(config, ReleaseName(repo, b))
    ensures forall p :: p in config[repo].pullRequests ==>
              !IsOrphan(config, ReleaseName(repo, PullRequestIdentity(p)))
  {
    forall b | b in config[repo].branches ensures !IsOrphan(config, ReleaseName(repo, b)) {
      OwnReleaseKept(config, repo, b);
    }
    forall p | p in config[repo].pullRequests
      ensures !IsOrphan(config, ReleaseName(repo, PullRequestIdentity(p)))
    {
      OwnReleaseKept(config, repo, PullRequestIdentity(p));
    }
  }

  /** The release of one live branch of a configured, hyphen-free repository
      is kept: either its key is the repository, which derives it, or the
      repository filled the whole name, which then has no hyphen at all. */
  lemma OwnReleaseKept(config: map<string, RepositoryData>, repo: string, branch: string)
    requires repo in config && '-' !in repo
    requires branch in config[repo].branches ||
             exists p :: p in config[repo].pullRequests && branch == PullRequestIdentity(p)
    ensures |repo| + 1 <= MaxNameLength ==> RepoKey(ReleaseName(repo, branch)) == Some(repo)
    ensures |repo| + 1 > MaxNameLength ==> '-' !in ReleaseName(repo, branch)
    ensures !IsOrphan(config, ReleaseName(repo, branch))
  {
    var name := ReleaseName(repo, branch);
    if |repo| + 1 <= MaxNameLength {
      RepositoryPrefix(repo, branch);
      KeyOfPrefixedName(repo, name);
    } else {
      assert name == repo[..MaxNameLength] by {
        assert Candidate(repo, branch)[..MaxNameLength] == repo[..MaxNameLength];
      }
      assert '-' !in name;
    }
  }

  /** A configured repository whose name contains `-` is never the key of
      any release, so its own branches protect nothing. */
  lemma HyphenatedRepositoryNeverKey(repo: string, name: string)
    requires '-' in repo
    ensures RepoKey(name) != Some(repo)
  {
  }

  /** Consequence: the release of a branch of a repository `prefix-rest` is
      judged against the configuration of `prefix`, if there is one, and is
      deleted unless one of `prefix`'s live branches or pull requests happens
      to derive the same name. */
  lemma HyphenatedRepositoryJudgedByPrefix(config: map<string, RepositoryData>, prefix: string, rest: string, branch: string)
    requires '-' !in prefix && |prefix| + 1 <= MaxNameLength
    ensures var name := ReleaseName(prefix + "-" + rest, branch);
            IsOrphan(config, name) <==> prefix in config && !IsLive(prefix, config[prefix], name)
  {
    var repo := prefix + "-" + rest;
    var name := ReleaseName(repo, branch);
    assert prefix + "-" <= name by {
      assert Candidate(repo, branch)[..|prefix| + 1] == prefix + "-";
      assert name[..|prefix| + 1] == Candidate(repo, branch)[..|prefix| + 1];
    }
    KeyOfPrefixedName(prefix, name);
  }

  /** When the first segment of a repository `prefix-rest` fills the whole
      name on its own, the cut name has no `-`, so its releases have no key
      and are never deleted, whether `prefix` is configured or not. */
  lemma HyphenatedRepositoryLongPrefixKept(config: map<string, RepositoryData>, prefix: string, rest: string, branch: string)
    requires '-' !in prefix && |prefix| >= MaxNameLength
    ensures var name := ReleaseName(prefix + "-" + rest, branch);
            RepoKey(name).None? && !IsOrphan(config, name)
  {
    var repo := prefix + "-" + rest;
    var name := ReleaseName(repo, branch);
    assert name == prefix[..MaxNameLength] by {
      assert Candidate(repo, branch)[..MaxNameLength] == prefix[..MaxNameLength];
    }
    assert '-' !in name;
  }
}
