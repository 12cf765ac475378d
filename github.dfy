/**
 * What the two programs read from the source-control host. Listing branches
 * and pull requests is a network call; here its answer is a value handed in
 * by the caller.
 */
module GitHub {
  /** A branch as the branch listing returns it (only its name is used). */
  datatype Branch = Branch(name: string)

  /** An open pull request as the pull-request listing returns it (only its
      number is used). */
  datatype PullRequest = PullRequest(number: int)

  /** The answer of the host for one repository: the first page of its
      branches and of its open pull requests. */
  type Listing = (string, string) -> seq<Branch>
  type PullRequestListing = (string, string) -> seq<PullRequest>

  function BranchNames(branches: seq<Branch>): seq<string>
  {
    seq(|branches|, i requires 0 <= i < |branches| => branches[i].name)
  }

  function PullRequestNumbers(prs: seq<PullRequest>): seq<int>
  {
    seq(|prs|, i requires 0 <= i < |prs| => prs[i].number)
  }
}
