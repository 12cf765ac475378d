/**
 * How a Helm release name is derived from a repository and a branch
 * (`releaseName` in cmd/helm/helm.go). The build pipeline names its releases
 * with the same rule, so the cleanup recomputes the expected names and
 * compares them with the deployed ones.
 */
module ReleaseNaming {
  import opened GoStrings

  /** Helm's limit on the length of a release name, in bytes. */
  const MaxNameLength := 53

  /** The bytes a slug is made of: lower-case letters, digits and `-`. */
  predicate IsSlugByte(c: char)
  {
    'a' <= c <= 'z' || '0' <= c <= '9' || c == '-'
  }

  /** No two adjacent hyphens. */
  predicate NoDoubleHyphen(s: string)
  {
    |s| < 2 || (!(s[0] == '-' && s[1] == '-') && NoDoubleHyphen(s[1..]))
  }

  /** The shape of a slugged branch. */
  predicate IsSlug(s: string)
  {
    (forall i :: 0 <= i < |s| ==> IsSlugByte(s[i])) && NoDoubleHyphen(s)
  }

  /** `[^a-zA-Z0-9]+` replaced by `-`: each maximal run of bytes outside the
      class becomes a single hyphen, emitted at the last byte of the run. */
  function Slug(s: string): (r: string)
    ensures |r| <= |s|
    ensures s != [] ==> r != [] && r[0] == (if IsAsciiAlnum(s[0]) then s[0] else '-')
    ensures forall i :: 0 <= i < |r| ==> IsAsciiAlnum(r[i]) || r[i] == '-'
  {
    if s == [] then []
    else if IsAsciiAlnum(s[0]) then [s[0]] + Slug(s[1..])
    else if |s| > 1 && !IsAsciiAlnum(s[1]) then Slug(s[1..])
    else "-" + Slug(s[1..])
  }

  /** A word of letters and digits is kept as it is, case included. */
  lemma {:induction false} SlugOfWord(w: string)
    requires forall i :: 0 <= i < |w| ==> IsAsciiAlnum(w[i])
    ensures Slug(w) == w
  {
    if w != [] {
      SlugOfWord(w[1..]);
      assert w == [w[0]] + w[1..];
    }
  }

  /** Slugging works piece by piece across a boundary that follows a letter
      or digit: no run of separators spans it. */
  lemma {:induction false} SlugAppend(a: string, x: string)
    requires a == [] || IsAsciiAlnum(a[|a| - 1])
    ensures Slug(a + x) == Slug(a) + Slug(x)
  {
    if a != [] {
      var s := a + x;
      assert s[0] == a[0] && s[1..] == a[1..] + x;
      SlugAppend(a[1..], x);
      if !IsAsciiAlnum(a[0]) {
        assert |a| > 1 && s[1] == a[1];
      }
    } else {
      assert a + x == x;
    }
  }

  /** A maximal run of bytes outside `[a-zA-Z0-9]` becomes exactly one `-`. */
  lemma {:induction false} SlugRun(sep: string, b: string)
    requires sep != [] && forall i :: 0 <= i < |sep| ==> !IsAsciiAlnum(sep[i])
    requires b == [] || IsAsciiAlnum(b[0])
    ensures Slug(sep + b) == "-" + Slug(b)
  {
    var s := sep + b;
    assert s[1..] == sep[1..] + b;
    if |sep| == 1 {
      assert s[1..] == b;
    } else {
      assert s[1] == sep[1];
      SlugRun(sep[1..], b);
    }
  }

  /** The bytes of `s` that are in `[a-zA-Z0-9]`, in order. */
  function Alnums(s: string): string
  {
    if s == [] then []
    else (if IsAsciiAlnum(s[0]) then [s[0]] else []) + Alnums(s[1..])
  }

  /** Slugging keeps every letter and digit of the branch, in order and with
      its case; only the separators change. */
  lemma {:induction false} SlugKeepsAlnums(s: string)
    ensures Alnums(Slug(s)) == Alnums(s)
  {
    if s != [] {
      SlugKeepsAlnums(s[1..]);
      var r := Slug(s);
      if IsAsciiAlnum(s[0]) {
        assert r[0] == s[0] && r[1..] == Slug(s[1..]);
      } else if |s| > 1 && !IsAsciiAlnum(s[1]) {
      } else {
        assert r[0] == '-' && r[1..] == Slug(s[1..]);
      }
    }
  }

  /** A slug never holds two hyphens in a row. */
  lemma {:induction false} SlugNoDoubleHyphen(s: string)
    ensures NoDoubleHyphen(Slug(s))
  {
    if s != [] {
      SlugNoDoubleHyphen(s[1..]);
      var r := Slug(s);
      if IsAsciiAlnum(s[0]) {
        assert r[1..] == Slug(s[1..]);
      } else if |s| > 1 && !IsAsciiAlnum(s[1]) {
      } else {
        assert r[1..] == Slug(s[1..]);
      }
    }
  }

  /** Lowering does not create or remove hyphens. */
  lemma {:induction false} LowerKeepsNoDoubleHyphen(s: string)
    requires NoDoubleHyphen(s)
    ensures NoDoubleHyphen(ToLower(s))
  {
    if |s| >= 2 {
      LowerKeepsNoDoubleHyphen(s[1..]);
      assert ToLower(s)[1..] == ToLower(s[1..]);
    }
  }

  /** The slugged and lowered branch consists of lower-case letters, digits
      and single hyphens. */
  lemma SlugShape(branch: string)
    ensures IsSlug(ToLower(Slug(branch)))
  {
    SlugNoDoubleHyphen(branch);
    LowerKeepsNoDoubleHyphen(Slug(branch));
  }

  /** A string already in slug form is left unchanged by slugging and
      lowering. */
  lemma {:induction false} SlugOfSlug(s: string)
    requires IsSlug(s)
    ensures Slug(s) == s && ToLower(s) == s
  {
    if s != [] {
      assert IsSlug(s[1..]);
      SlugOfSlug(s[1..]);
      if s[0] == '-' && |s| > 1 {
        assert s[1] != '-';
      }
      assert s == [s[0]] + s[1..];
    }
  }

  /** Slugging is idempotent: slugging a derived slug again is a no-op. */
  lemma SlugIdempotent(branch: string)
    ensures ToLower(Slug(ToLower(Slug(branch)))) == ToLower(Slug(branch))
  {
    SlugShape(branch);
    SlugOfSlug(ToLower(Slug(branch)));
  }

  /** The release name before truncation: the repository verbatim, a hyphen
      and the lowered slug of the branch. */
  function Candidate(repo: string, branch: string): string
  {
    repo + "-" + ToLower(Slug(branch))
  }

  /** `releaseName(repo, branch)`: the candidate cut to its first 53 bytes. */
  function ReleaseName(repo: string, branch: string): (name: string)
    ensures |name| <= MaxNameLength
    ensures name <= Candidate(repo, branch)
    ensures |name| == if |Candidate(repo, branch)| <= MaxNameLength
                      then |Candidate(repo, branch)| else MaxNameLength
  {
    var c := Candidate(repo, branch);
    if |c| > MaxNameLength then c[..MaxNameLength] else c
  }

  /** An empty branch gives the repository followed by a hyphen. */
  lemma EmptyBranch(repo: string)
    ensures ReleaseName(repo, "") <= repo + "-"
    ensures |repo| < MaxNameLength ==> ReleaseName(repo, "") == repo + "-"
  {
    assert Candidate(repo, "") == repo + "-";
  }

  /** The repository is used verbatim (not lowered) and followed by `-`
      whenever both fit in the limit. */
  lemma RepositoryPrefix(repo: string, branch: string)
    requires |repo| + 1 <= MaxNameLength
    ensures repo + "-" <= ReleaseName(repo, branch)
  {
    var name := ReleaseName(repo, branch);
    assert name[..|repo| + 1] == Candidate(repo, branch)[..|repo| + 1];
  }

  /** Below the limit, branches with different slugs get different names. */
  lemma DistinctSlugsDistinctNames(repo: string, b1: string, b2: string)
    requires ToLower(Slug(b1)) != ToLower(Slug(b2))
    requires |Candidate(repo, b1)| <= MaxNameLength && |Candidate(repo, b2)| <= MaxNameLength
    ensures ReleaseName(repo, b1) != ReleaseName(repo, b2)
  {
    var p := repo + "-";
    assert Candidate(repo, b1)[|p|..] == ToLower(Slug(b1));
    assert Candidate(repo, b2)[|p|..] == ToLower(Slug(b2));
  }

  /** Truncation is a plain prefix cut: once the repository and its hyphen
      fill the limit, every branch of it gets the same name. */
  lemma LongRepositoryIgnoresBranch(repo: string, b1: string, b2: string)
    requires |repo| + 1 >= MaxNameLength
    ensures ReleaseName(repo, b1) == ReleaseName(repo, b2)
  {
    var n1, n2 := ReleaseName(repo, b1), ReleaseName(repo, b2);
    assert n1 == (repo + "-")[..MaxNameLength] by {
      assert Candidate(repo, b1)[..MaxNameLength] == (repo + "-")[..MaxNameLength];
    }
    assert n2 == (repo + "-")[..MaxNameLength] by {
      assert Candidate(repo, b2)[..MaxNameLength] == (repo + "-")[..MaxNameLength];
    }
  }

  /** The identity under which an open pull request is deployed:
      `"pr-" + strconv.Itoa(id)`. */
  function PullRequestIdentity(id: int): string
  {
    "pr-" + Itoa(id)
  }

  /** A pull-request identity of a non-negative number is already a slug, so
      its release name is the repository, `-pr-` and the number. */
  lemma PullRequestIdentityIsSlug(repo: string, id: int)
    requires id >= 0
    ensures ToLower(Slug(PullRequestIdentity(id))) == PullRequestIdentity(id)
    ensures Candidate(repo, PullRequestIdentity(id)) == repo + "-pr-" + Itoa(id)
  {
    var digits := DecimalDigits(id);
    assert PullRequestIdentity(id) == "pr-" + digits;
    PrefixedDigitsIsSlug(digits);
    SlugOfSlug("pr-" + digits);
  }

  /** `pr-` followed by decimal digits is in slug form. */
  lemma PrefixedDigitsIsSlug(digits: string)
    requires forall i :: 0 <= i < |digits| ==> IsDigit(digits[i])
    ensures IsSlug("pr-" + digits)
  {
    var s := "pr-" + digits;
    DigitsNoHyphen(digits);
    assert s[2..][1..] == digits;
    assert NoDoubleHyphen(s[2..]);
    assert s[1..][1..] == s[2..];
    assert NoDoubleHyphen(s[1..]);
  }

  lemma {:induction false} DigitsNoHyphen(s: string)
    requires forall i :: 0 <= i < |s| ==> IsDigit(s[i])
    ensures NoDoubleHyphen(s)
  {
    if |s| >= 2 {
      DigitsNoHyphen(s[1..]);
    }
  }

  /** Below the limit, distinct pull requests get distinct release names. */
  lemma DistinctPullRequestsDistinctNames(repo: string, m: int, n: int)
    requires 0 <= m && 0 <= n && m != n
    requires |Candidate(repo, PullRequestIdentity(m))| <= MaxNameLength
    requires |Candidate(repo, PullRequestIdentity(n))| <= MaxNameLength
    ensures ReleaseName(repo, PullRequestIdentity(m)) != ReleaseName(repo, PullRequestIdentity(n))
  {
    PullRequestIdentityIsSlug(repo, m);
    PullRequestIdentityIsSlug(repo, n);
    if PullRequestIdentity(m) == PullRequestIdentity(n) {
      assert Itoa(m) == PullRequestIdentity(m)[3..];
      assert Itoa(n) == PullRequestIdentity(n)[3..];
      ItoaInjective(m, n);
    }
    DistinctSlugsDistinctNames(repo, PullRequestIdentity(m), PullRequestIdentity(n));
  }
}
