/**
 * How both programs read their command line: every argument names a
 * repository as `org/repo`, and the configuration map is keyed by the
 * repository part, so a later argument for the same repository overwrites an
 * earlier one (cmd/helm/helm.go:48-52, cmd/storage/main.go:38-42).
 */
module Arguments {
  import opened GoStrings

  /** An argument the programs can read: it has a `/`, so `parts[1]` exists. */
  predicate IsRepositoryArgument(arg: string)
  {
    '/' in arg
  }

  /** `strings.Split(arg, "/")[0]`: the text before the first slash. */
  function OrgPart(arg: string): (org: string)
    ensures '/' !in org && org <= arg
    ensures IsRepositoryArgument(arg) ==> org + "/" <= arg
    ensures !IsRepositoryArgument(arg) ==> org == arg
  {
    SplitHead(arg, '/');
    Split(arg, '/')[0]
  }

  /** `strings.Split(arg, "/")[1]`: the text between the first and the second
      slash, or up to the end when there is no second one. */
  function RepoPart(arg: string): (repo: string)
    requires IsRepositoryArgument(arg)
    ensures '/' !in repo
    ensures OrgPart(arg) + "/" + repo <= arg
    ensures var end := |OrgPart(arg)| + 1 + |repo|;
            end < |arg| ==> arg[end] == '/'
  {
    var org := OrgPart(arg);
    var rest := arg[|org| + 1..];
    assert arg == org + ['/'] + rest;
    SplitAfterPrefix(org, '/', rest);
    SplitHead(rest, '/');
    Split(arg, '/')[1]
  }

  /** Reading back an argument written as `org/repo`, possibly followed by
      further `/` segments, gives back the organisation and the repository. */
  lemma ArgumentParts(org: string, repo: string, tail: string)
    requires '/' !in org && '/' !in repo
    requires tail == [] || tail[0] == '/'
    ensures IsRepositoryArgument(org + "/" + repo + tail)
    ensures OrgPart(org + "/" + repo + tail) == org
    ensures RepoPart(org + "/" + repo + tail) == repo
  {
    var arg := org + "/" + repo + tail;
    assert arg == org + ['/'] + (repo + tail);
    SplitAfterPrefix(org, '/', repo + tail);
    if tail == [] {
      assert repo + tail == repo;
      SplitHead(repo, '/');
    } else {
      assert repo + tail == repo + ['/'] + tail[1..];
      SplitAfterPrefix(repo, '/', tail[1..]);
    }
  }

  /** The repository names the arguments configure. */
  function RepoNames(args: seq<string>): set<string>
    requires forall a :: a in args ==> IsRepositoryArgument(a)
  {
    set a | a in args :: RepoPart(a)
  }

  /** The position of the argument that decides the configuration of `repo`:
      since each argument overwrites the map entry of its repository, it is
      the last one naming `repo`. */
  function LastArgument(args: seq<string>, repo: string): (i: nat)
    requires forall a :: a in args ==> IsRepositoryArgument(a)
    requires repo in RepoNames(args)
    ensures i < |args| && RepoPart(args[i]) == repo
    ensures forall j :: i < j < |args| ==> RepoPart(args[j]) != repo
  {
    var last := args[|args| - 1];
    if RepoPart(last) == repo then |args| - 1
    else
      assert repo in RepoNames(args[..|args| - 1]) by {
        var a :| a in args && RepoPart(a) == repo;
        var k :| 0 <= k < |args| && args[k] == a;
        assert args[..|args| - 1][k] == a;
      }
      LastArgument(args[..|args| - 1], repo)
  }

  /** What reading one more argument changes: its repository joins the
      configured names and is now decided by it, and every other repository
      keeps the argument that decided it. */
  lemma ArgumentStep(args: seq<string>, i: nat)
    requires i < |args| && forall a :: a in args ==> IsRepositoryArgument(a)
    ensures RepoNames(args[..i + 1]) == RepoNames(args[..i]) + {RepoPart(args[i])}
    ensures LastArgument(args[..i + 1], RepoPart(args[i])) == i
    ensures forall r :: r in RepoNames(args[..i]) && r != RepoPart(args[i]) ==>
              LastArgument(args[..i + 1], r) == LastArgument(args[..i], r)
  {
    var prefix := args[..i + 1];
    assert prefix[..i] == args[..i] && prefix[i] == args[i];
    forall a | a in prefix ensures a in args[..i] || a == args[i] {
      var k :| 0 <= k < |prefix| && prefix[k] == a;
      if k < i { assert args[..i][k] == a; }
    }
  }
}
