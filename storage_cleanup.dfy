/**
 * The blob-storage cleanup (cmd/storage/main.go): for each configured
 * repository, list the first segment of its container `org-repo` and delete
 * every blob whose `branch` metadata names no live branch.
 *
 * Azure is not modelled: the listing is a `ListResult` handed in, and the
 * delete calls are the sequence of blob addresses they are sent to (their
 * results are ignored by the program).
 */
module StorageCleanup {
  import opened GoStrings
  import opened GitHub
  import opened Arguments

  /** The branch added to every repository because the listing omits
      protected branches. */
  const ProtectedBranch := "master"

  /** What is known about one configured repository. */
  datatype RepositoryData = RepositoryData(orgName: string, repoName: string, branches: seq<string>)

  /** A listed blob: its name and its metadata. */
  datatype BlobItem = BlobItem(name: string, metadata: map<string, string>)

  /** The answer of the first `ListBlobsFlatSegment` call: the blobs, the
      container-not-found storage error, or any other error. */
  datatype ListResult = Listed(items: seq<BlobItem>) | ContainerNotFound | ListFailed

  /** How a run ends: by returning or by `log.Fatal`, in both cases having
      sent delete calls to the addresses in `deleted`. */
  datatype RepoOutcome = Completed(deleted: seq<string>) | Fatal(deleted: seq<string>)

  /** `initializeRepositoryData`: the listed branch names in order, then
      `master` in the extra last slot. */
  method InitializeRepositoryData(orgName: string, repoName: string, branches: seq<Branch>)
    returns (data: RepositoryData)
    ensures data.orgName == orgName && data.repoName == repoName
    ensures |data.branches| == |branches| + 1
    ensures forall i :: 0 <= i < |branches| ==> data.branches[i] == branches[i].name
    ensures data.branches[|branches|] == ProtectedBranch
  {
    var branchNames := new string[|branches| + 1];
    for i := 0 to |branches|
      invariant forall k :: 0 <= k < i ==> branchNames[k] == branches[k].name
    {
      branchNames[i] := branches[i].name;
    }
    branchNames[|branches|] := ProtectedBranch;
    data := RepositoryData(orgName, repoName, branchNames[..]);
  }

  /** The data `InitializeRepositoryData` builds from the host's answer. */
  function Fetched(org: string, repo: string, listBranches: Listing): RepositoryData
  {
    RepositoryData(org, repo, BranchNames(listBranches(org, repo)) + [ProtectedBranch])
  }

  /** The loop over the `org/repo` arguments filling the global `config` map:
      one entry per repository name, taken from the last argument naming it. */
  method BuildConfig(args: seq<string>, listBranches: Listing) returns (config: map<string, RepositoryData>)
    requires forall a :: a in args ==> IsRepositoryArgument(a)
    ensures config.Keys == RepoNames(args)
    ensures forall repo :: repo in config ==>
              config[repo] == Fetched(OrgPart(args[LastArgument(args, repo)]), repo, listBranches)
  {
    config := map[];
    for i := 0 to |args|
      invariant config.Keys == RepoNames(args[..i])
      invariant forall repo :: repo in config ==>
                  config[repo] == Fetched(OrgPart(args[LastArgument(args[..i], repo)]), repo, listBranches)
    {
      var org, repo := OrgPart(args[i]), RepoPart(args[i]);
      var data := InitializeRepositoryData(org, repo, listBranches(org, repo));
      assert data.branches == BranchNames(listBranches(org, repo)) + [ProtectedBranch];
      ArgumentStep(args, i);
      config := config[repo := data];
    }
    assert args[..|args|] == args;
  }

  /** The address of a repository's container. */
  function ContainerURL(account: string, org: string, repo: string): string
  {
    "https://" + account + ".blob.core.windows.net/" + org + "-" + repo
  }

  /** The address of a blob in a container. */
  function BlobURL(container: string, name: string): string
  {
    container + "/" + name
  }

  /** The metadata key a blob's branch is stored under. */
  const BranchKey := "branch"

  /** `blob.Metadata["branch"]`: a missing key reads as the empty string. */
  function BranchTag(blob: BlobItem): string
  {
    if BranchKey in blob.metadata then blob.metadata[BranchKey] else ""
  }

  /** The listed blobs to delete, in listing order: those whose branch tag is
      not a live branch. */
  function Doomed(branches: seq<string>, items: seq<BlobItem>): seq<BlobItem>
  {
    if items == [] then []
    else
      var blob := items[|items| - 1];
      Doomed(branches, items[..|items| - 1]) + (if BranchTag(blob) in branches then [] else [blob])
  }

  /** The addresses the delete calls for `blobs` go to. */
  function DeleteURLs(container: string, blobs: seq<BlobItem>): seq<string>
  {
    seq(|blobs|, i requires 0 <= i < |blobs| => BlobURL(container, blobs[i].name))
  }

  /** The `keep` computation for one blob: compare its branch tag with every
      branch of the repository. */
  method KeepBlob(branches: seq<string>, blob: BlobItem) returns (keep: bool)
    ensures keep <==> BranchTag(blob) in branches
  {
    keep := false;
    for j := 0 to |branches|
      invariant keep <==> exists k :: 0 <= k < j && branches[k] == BranchTag(blob)
    {
      if branches[j] == BranchTag(blob) {
        keep := true;
      }
    }
  }

  /** `handleRepo`: a missing container means nothing to do, any other listing
      error ends the run, and otherwise every blob not kept gets one delete
      call at its address in the repository's container. */
  method HandleRepo(account: string, repo: RepositoryData, listing: ListResult) returns (outcome: RepoOutcome)
    ensures listing.ListFailed? ==> outcome == Fatal([])
    ensures listing.ContainerNotFound? ==> outcome == Completed([])
    ensures listing.Listed? ==> outcome == Completed(DeleteURLs(ContainerURL(account, repo.orgName, repo.repoName),
                                                              Doomed(repo.branches, listing.items)))
  {
    var container := ContainerURL(account, repo.orgName, repo.repoName);
    match listing {
      case ContainerNotFound =>
        return Completed([]);
      case ListFailed =>
        return Fatal([]);
      case Listed(items) =>
        var deleted := [];
        for i := 0 to |items|
          invariant deleted == DeleteURLs(container, Doomed(repo.branches, items[..i]))
        {
          var blob := items[i];
          assert items[..i + 1][..i] == items[..i];
          var keep := KeepBlob(repo.branches, blob);
          if !keep {
            deleted := deleted + [BlobURL(container, blob.name)];
          }
        }
        assert items[..|items|] == items;
        return Completed(deleted);
    }
  }

  /** The deletes `handleRepo` sends for one repository when its listing
      does not end the run. */
  function RepoDeletes(account: string, repo: RepositoryData, listing: ListResult): seq<string>
  {
    if listing.Listed?
    then DeleteURLs(ContainerURL(account, repo.orgName, repo.repoName), Doomed(repo.branches, listing.items))
    else []
  }

  /** The listing the storage service gives for a repository's container. */
  function ListingOf(account: string, repo: RepositoryData, list: string -> ListResult): ListResult
  {
    list(ContainerURL(account, repo.orgName, repo.repoName))
  }

  /** A run over the repositories `order` names, in that order: it stops at
      the first listing that fails with another error than a missing
      container. */
  function SweepRun(account: string, config: map<string, RepositoryData>, order: seq<string>,
                    list: string -> ListResult): RepoOutcome
    requires forall k :: k in order ==> k in config
  {
    if order == [] then Completed([])
    else
      var before := SweepRun(account, config, order[..|order| - 1], list);
      var repo := config[order[|order| - 1]];
      if before.Fatal? then before
      else if ListingOf(account, repo, list).ListFailed? then Fatal(before.deleted)
      else Completed(before.deleted + RepoDeletes(account, repo, ListingOf(account, repo, list)))
  }

  /** The loop over `config` in `main`. Go visits a map in an unspecified
      order; `order` is the order of this run, each key once. */
  method Sweep(account: string, config: map<string, RepositoryData>, order: seq<string>,
               list: string -> ListResult) returns (outcome: RepoOutcome)
    requires forall k :: k in order <==> k in config
    requires forall i, j :: 0 <= i < j < |order| ==> order[i] != order[j]
    ensures outcome == SweepRun(account, config, order, list)
  {
    var deleted := [];
    for i := 0 to |order|
      invariant SweepRun(account, config, order[..i], list) == Completed(deleted)
    {
      assert order[..i + 1][..i] == order[..i];
      var repo := config[order[i]];
      var listing := ListingOf(account, repo, list);
      var result := HandleRepo(account, repo, listing);
      if result.Fatal? {
        assert SweepRun(account, config, order[..i + 1], list) == Fatal(deleted);
        SweepRunStaysFatal(account, config, order, list, i + 1);
        return Fatal(deleted);
      }
      assert result.deleted == RepoDeletes(account, repo, listing);
      deleted := deleted + result.deleted;
    }
    assert order[..|order|] == order;
    return Completed(deleted);
  }

  /** Once a run has ended by `log.Fatal`, the repositories after it are
      never visited. */
  lemma {:induction false} SweepRunStaysFatal(account: string, config: map<string, RepositoryData>, order: seq<string>,
                                              list: string -> ListResult, n: nat)
    requires forall k :: k in order ==> k in config
    requires n <= |order| && SweepRun(account, config, order[..n], list).Fatal?
    ensures SweepRun(account, config, order, list) == SweepRun(account, config, order[..n], list)
  {
    if n < |order| {
      var init := order[..|order| - 1];
      assert init[..n] == order[..n];
      SweepRunStaysFatal(account, config, init, list, n);
    } else {
      assert order[..n] == order;
    }
  }

  /** A run ends by `log.Fatal` exactly when some repository's listing fails
      with another error than a missing container; a missing container only
      means no deletes for that repository. */
  lemma {:induction false} SweepFatalIff(account: string, config: map<string, RepositoryData>, order: seq<string>,
                                         list: string -> ListResult)
    requires forall k :: k in order ==> k in config
    ensures SweepRun(account, config, order, list).Fatal? <==>
            exists i :: 0 <= i < |order| && ListingOf(account, config[order[i]], list).ListFailed?
  {
    if order != [] {
      var init := order[..|order| - 1];
      SweepFatalIff(account, config, init, list);
      assert forall i :: 0 <= i < |init| ==> init[i] == order[i];
    }
  }

  /** A listed blob is deleted exactly when its branch tag is not a live
      branch. */
  lemma {:induction false} DoomedMembership(branches: seq<string>, items: seq<BlobItem>, blob: BlobItem)
    ensures blob in Doomed(branches, items) <==> blob in items && BranchTag(blob) !in branches
  {
    if items != [] {
      var init := items[..|items| - 1];
      DoomedMembership(branches, init, blob);
      assert items == init + [items[|items| - 1]];
    }
  }

  /** Every occurrence of a doomed blob in the listing gets exactly one delete
      call. */
  lemma DoomedOccurrences(branches: seq<string>, items: seq<BlobItem>, blob: BlobItem)
    ensures multiset(Doomed(branches, items))[blob] ==
            if BranchTag(blob) in branches then 0 else multiset(items)[blob]
  {
    DoomedCount(branches, items, blob);
    CountIsMultiset(Doomed(branches, items), blob);
    CountIsMultiset(items, blob);
  }

  lemma {:induction false} DoomedCount(branches: seq<string>, items: seq<BlobItem>, blob: BlobItem)
    ensures Count(Doomed(branches, items), blob) ==
            if BranchTag(blob) in branches then 0 else Count(items, blob)
  {
    if items != [] {
      var init, last := items[..|items| - 1], items[|items| - 1];
      DoomedCount(branches, init, blob);
      var d := Doomed(branches, init);
      var kept := BranchTag(last) in branches;
      assert Doomed(branches, items) == if kept then d else d + [last];
      assert (d + [last])[..|d|] == d;
      if last == blob {
        assert Count(items, blob) == Count(init, blob) + 1;
      } else {
        assert Count(items, blob) == Count(init, blob);
      }
    }
  }

  /** The verdict depends only on which branches are live, not on their
      order. */
  lemma {:induction false} DoomedIgnoresBranchOrder(b1: seq<string>, b2: seq<string>, items: seq<BlobItem>)
    requires forall b :: b in b1 <==> b in b2
    ensures Doomed(b1, items) == Doomed(b2, items)
  {
    if items != [] {
      DoomedIgnoresBranchOrder(b1, b2, items[..|items| - 1]);
    }
  }

  /** Blobs tagged `master` are never deleted from a configured repository's
      container. */
  lemma ProtectedBlobsKept(org: string, repo: string, listBranches: Listing, items: seq<BlobItem>, blob: BlobItem)
    requires BranchTag(blob) == ProtectedBranch
    ensures blob !in Doomed(Fetched(org, repo, listBranches).branches, items)
  {
    var branches := Fetched(org, repo, listBranches).branches;
    assert branches[|branches| - 1] == ProtectedBranch;
    DoomedMembership(branches, items, blob);
  }

  /** A listed blob without `branch` metadata is deleted unless the empty
      string is a live branch name. */
  lemma UntaggedBlobsDeleted(branches: seq<string>, items: seq<BlobItem>, blob: BlobItem)
    requires blob in items && "branch" !in blob.metadata && "" !in branches
    ensures blob in Doomed(branches, items)
  {
    DoomedMembership(branches, items, blob);
  }

  /** Each delete call goes to the container's address, a slash and the
      blob's name, so the name is recovered from the address. */
  lemma DeleteAddresses(account: string, repo: RepositoryData, blobs: seq<BlobItem>)
    ensures var container := ContainerURL(account, repo.orgName, repo.repoName);
            var urls := DeleteURLs(container, blobs);
            |urls| == |blobs| &&
            forall i :: 0 <= i < |blobs| ==>
              container + "/" <= urls[i] && urls[i][|container| + 1..] == blobs[i].name
  {
  }
}
