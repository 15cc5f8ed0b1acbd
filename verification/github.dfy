/** `parse_github_link` and `is_valid_github_repo` of the backend: turning a
    repository link in SSH or HTTPS form into its owner and repository name. */
module GithubLink {
  import opened Wrappers
  import opened Text

  const SshPrefix: string := "git@github.com:"
  const GitSuffix: string := ".git"

  /** `github_link.strip().rstrip('/').replace('.git', '')` */
  function Normalize(link: string): (r: string)
    ensures |r| <= |link|
  {
    RemoveAll(RStrip(Strip(link), '/'), GitSuffix)
  }

  /** One removal pass can join the pieces around a removed `.git` into a new
      one: the result may still hold `.git`, so normalising is not idempotent.
      The parameter stands for the one text `..gitgit`; naming it keeps the
      solver from unfolding the literal at every use. */
  lemma NormalizeMayLeaveGit(s: string)
    requires s == ['.'] + GitSuffix + "git"
    ensures Normalize(s) == GitSuffix
    ensures Normalize(Normalize(s)) == ""
  {
    TrimmedUnchanged(s);
    RemovalJoins(s);
    GitSuffixNormalized();
  }

  lemma GitSuffixNormalized()
    ensures Normalize(GitSuffix) == ""
  {
    TrimmedUnchanged(GitSuffix);
    RemoveAllLeading(GitSuffix, "");
  }

  /** `.` followed by `.git` and `git`: removing the inner `.git` leaves `.git`. */
  lemma RemovalJoins(s: string)
    requires s == ['.'] + GitSuffix + "git"
    ensures RemoveAll(s, GitSuffix) == GitSuffix
  {
    assert s[..4][1] != GitSuffix[1];
    RemoveAllSkip(s, GitSuffix);
    assert s[1..] == GitSuffix + "git";
    RemoveAllLeading(GitSuffix, "git");
    RemoveAllMissingChar("git", GitSuffix, '.');
  }

  /** Normalisation introduces no character that was not in the link. */
  lemma NormalizeKeepsCharacters(link: string, c: char)
    requires c in Normalize(link)
    ensures c in link
  {
    var stripped := Strip(link);
    var trimmed := RStrip(stripped, '/');
    RemoveAllKeepsCharacters(trimmed, GitSuffix, c);
    var i :| CutFrom(link, stripped, i, IsSpace);
    PrefixOfCutKeeps(link, stripped, i, IsSpace, trimmed, c);
  }

  /** A character of a prefix of a slice is a character of the whole. */
  lemma PrefixOfCutKeeps(s: string, r: string, i: int, drop: char -> bool, t: string, c: char)
    requires CutFrom(s, r, i, drop)
    requires |t| <= |r| && t == r[..|t|] && c in t
    ensures c in s
  {
    var j :| 0 <= j < |t| && t[j] == c;
    assert r[j] == s[i + j];
  }

  /** The SSH branch, for a normalised link that starts with the SSH prefix:
      every occurrence of the prefix is removed and the rest is split at its
      first `/`; the owner is what precedes it and the repository, which may
      itself hold `/`, is what follows. */
  function ParseSsh(link: string): (r: Option<(string, string)>)
    ensures r.Some? ==>
      && r.value.0 != "" && r.value.1 != ""
      && '/' !in r.value.0
      && RemoveAll(link, SshPrefix) == r.value.0 + "/" + r.value.1
  {
    var part := RemoveAll(link, SshPrefix);
    if '/' in part then
      var i := IndexOf(part, '/');
      var owner := part[..i];
      var repo := part[i + 1..];
      assert part == owner + "/" + repo;
      if owner != "" && repo != "" then Some((owner, repo)) else None
    else
      None
  }

  /** Conversely, whenever the prefix-free rest splits into a non-empty,
      `/`-free owner and a non-empty repository, the SSH branch finds them. */
  lemma SshSplitComplete(link: string, owner: string, repo: string)
    requires owner != "" && repo != "" && '/' !in owner
    requires RemoveAll(link, SshPrefix) == owner + "/" + repo
    ensures ParseSsh(link) == Some((owner, repo))
  {
    IndexOfAfter(owner, '/', repo);
    var part := owner + "/" + repo;
    assert part == owner + ['/'] + repo;
    assert part[..|owner|] == owner;
    assert part[|owner| + 1..] == repo;
  }

  /** The HTTPS branch: a link mentioning `github.com` with at least four `/`
      yields its last two `/`-separated pieces, both non-empty. */
  function ParseHttps(link: string): (r: Option<(string, string)>)
    ensures r.Some? ==>
      && Contains(link, "github.com")
      && |Split(link, '/')| >= 5
      && r.value.0 != "" && r.value.1 != ""
      && '/' !in r.value.0 && '/' !in r.value.1
  {
    if Contains(link, "github.com") then
      var parts := Split(link, '/');
      if |parts| >= 5 then
        var owner := parts[|parts| - 2];
        var repo := parts[|parts| - 1];
        if owner != "" && repo != "" then Some((owner, repo)) else None
      else
        None
    else
      None
  }

  /** Conversely, every link mentioning `github.com` with at least four `/`
      and non-empty last two pieces parses to those pieces. */
  lemma ParseHttpsComplete(link: string)
    requires Contains(link, "github.com")
    requires |Split(link, '/')| >= 5
    requires Split(link, '/')[|Split(link, '/')| - 2] != "" && Split(link, '/')[|Split(link, '/')| - 1] != ""
    ensures ParseHttps(link) == Some((Split(link, '/')[|Split(link, '/')| - 2], Split(link, '/')[|Split(link, '/')| - 1]))
  {
  }

  /** The pieces the HTTPS branch returns are the link's tail `/owner/repo`. */
  lemma HttpsPiecesAreTail(link: string)
    requires ParseHttps(link).Some?
    ensures EndsWith(link, "/" + ParseHttps(link).value.0 + "/" + ParseHttps(link).value.1)
  {
    var parts := Split(link, '/');
    assert ParseHttps(link).value == (parts[|parts| - 2], parts[|parts| - 1]);
    JoinSplit(link, '/');
    JoinEndsWithLastTwo(parts, link);
  }

  lemma JoinEndsWithLastTwo(parts: seq<string>, link: string)
    requires |parts| >= 3 && Join(parts, '/') == link
    ensures EndsWith(link, "/" + parts[|parts| - 2] + "/" + parts[|parts| - 1])
  {
    var n := |parts|;
    JoinLastTwo(parts, '/');
    var head := Join(parts[..n - 2], '/');
    var tail := "/" + parts[n - 2] + "/" + parts[n - 1];
    assert link == head + tail by {
      AppendFour(head, "/", parts[n - 2], "/", parts[n - 1]);
    }
    EndsWithAppend(head, tail);
  }

  lemma AppendFour(a: string, b: string, c: string, d: string, e: string)
    ensures a + b + c + d + e == a + (b + c + d + e)
  {
  }

  /** Joining a list of at least three pieces puts the last two after the rest. */
  lemma {:induction false} JoinLastTwo(parts: seq<string>, sep: char)
    requires |parts| >= 3
    ensures Join(parts, sep) ==
      Join(parts[..|parts| - 2], sep) + [sep] + parts[|parts| - 2] + [sep] + parts[|parts| - 1]
    decreases |parts|
  {
    var n := |parts|;
    if n == 3 {
      assert parts[1..][1..] == [parts[2]];
      assert Join(parts[1..], sep) == parts[1] + [sep] + parts[2];
      assert parts[..1] == [parts[0]];
      assert Join(parts[..1], sep) == parts[0];
    } else {
      JoinLastTwo(parts[1..], sep);
      assert parts[1..][..n - 3] == parts[..n - 2][1..];
      assert parts[..n - 2][0] == parts[0];
      assert parts[1..][n - 3] == parts[n - 2];
      assert parts[1..][n - 2] == parts[n - 1];
    }
  }

  /** `parse_github_link`: an SSH-prefixed link is decided by the SSH branch
      alone; any other link goes to the HTTPS branch. */
  function ParseGithubLink(link: string): (r: Option<(string, string)>)
    ensures r.Some? ==> r.value.0 != "" && r.value.1 != "" && '/' !in r.value.0
  {
    var n := Normalize(link);
    if StartsWith(n, SshPrefix) then ParseSsh(n) else ParseHttps(n)
  }

  /** `is_valid_github_repo`: the link parses and the GitHub API answers 200
      for the owner and repository; `apiFound` stands for that request, with
      a failed request reading as `false`. */
  function IsValidGithubRepo(link: string, apiFound: (string, string) -> bool): (valid: bool)
    ensures valid ==> ParseGithubLink(link).Some?
    ensures ParseGithubLink(link).Some? ==>
      (valid <==> apiFound(ParseGithubLink(link).value.0, ParseGithubLink(link).value.1))
  {
    match ParseGithubLink(link)
    case None => false
    case Some((owner, repo)) => apiFound(owner, repo)
  }

  // ---------------------------------------------------------------------
  // Properties
  // ---------------------------------------------------------------------

  /** The canonical HTTPS clone URL parses back to its owner and repository,
      for names that hold no `/`, no `.git` and are non-empty. */
  lemma HttpsRoundTrip(owner: string, repo: string)
    requires owner != "" && repo != ""
    requires '/' !in owner && '/' !in repo
    requires !Contains(owner, GitSuffix) && !Contains(repo, GitSuffix)
    ensures ParseGithubLink("https://github.com/" + owner + "/" + repo + GitSuffix) == Some((owner, repo))
  {
    var n := "https://github.com/" + owner + "/" + repo;
    NormalizeHttpsUrl(owner, repo);
    HttpsUrlIsNotSsh(owner, repo);
    ParseHttpsUrl(owner, repo);
    ParseNormalized("https://github.com/" + owner + "/" + repo + GitSuffix, n);
  }

  lemma HttpsUrlIsNotSsh(owner: string, repo: string)
    ensures !StartsWith("https://github.com/" + owner + "/" + repo, SshPrefix)
  {
    var n := "https://github.com/" + owner + "/" + repo;
    if |SshPrefix| <= |n| {
      assert n[..|SshPrefix|][0] == 'h';
    }
  }

  lemma ParseHttpsUrl(owner: string, repo: string)
    requires owner != "" && repo != ""
    requires '/' !in owner && '/' !in repo
    ensures ParseHttps("https://github.com/" + owner + "/" + repo) == Some((owner, repo))
  {
    SplitHttpsUrl(owner, repo);
    HttpsUrlMentionsHost(owner, repo);
  }

  lemma HttpsUrlMentionsHost(owner: string, repo: string)
    ensures Contains("https://github.com/" + owner + "/" + repo, "github.com")
  {
    assert "https://github.com/" + owner + "/" + repo == "https://" + "github.com" + ("/" + owner + "/" + repo);
    ContainsInfix("https://", "github.com", "/" + owner + "/" + repo);
  }

  /** The pieces of `https://github.com/owner/repo` between its slashes. */
  lemma SplitHttpsUrl(owner: string, repo: string)
    requires '/' !in owner && '/' !in repo
    ensures Split("https://github.com/" + owner + "/" + repo, '/') == ["https:", "", "github.com", owner, repo]
  {
    HttpsUrlShape(owner, repo);
    assert '/' !in "https:" && '/' !in "github.com";
    SplitFive("https:", "", "github.com", owner, repo);
  }

  /** Five slash-free pieces joined by `/` split back into themselves. */
  lemma SplitFive(a: string, b: string, c: string, d: string, e: string)
    requires '/' !in a && '/' !in b && '/' !in c && '/' !in d && '/' !in e
    ensures Split(a + ['/'] + (b + ['/'] + (c + ['/'] + (d + ['/'] + e))), '/') == [a, b, c, d, e]
  {
    SplitChain(a, b, c, d, e);
    Flatten(a, b, c, d, e);
  }

  lemma SplitChain(a: string, b: string, c: string, d: string, e: string)
    requires '/' !in a && '/' !in b && '/' !in c && '/' !in d && '/' !in e
    ensures Split(a + ['/'] + (b + ['/'] + (c + ['/'] + (d + ['/'] + e))), '/')
      == [a] + ([b] + ([c] + ([d] + [e])))
  {
    var t1 := d + ['/'] + e;
    var t2 := c + ['/'] + t1;
    var t3 := b + ['/'] + t2;
    assert Split(e, '/') == [e];
    SplitAtFirst(d, '/', e);
    SplitAtFirst(c, '/', t1);
    SplitAtFirst(b, '/', t2);
    SplitAtFirst(a, '/', t3);
  }

  lemma Flatten<T>(a: T, b: T, c: T, d: T, e: T)
    ensures [a] + ([b] + ([c] + ([d] + [e]))) == [a, b, c, d, e]
  {
  }

  lemma HttpsUrlShape(owner: string, repo: string)
    ensures "https://github.com/" + owner + "/" + repo
      == "https:" + ['/'] + ("" + ['/'] + ("github.com" + ['/'] + (owner + ['/'] + repo)))
  {
  }

  /** The SSH clone URL parses back to its owner and repository; here the
      repository may hold `/`, since the SSH branch splits at the first `/`. */
  lemma SshRoundTrip(owner: string, repo: string)
    requires owner != "" && repo != ""
    requires '/' !in owner && ':' !in owner && ':' !in repo
    requires !Contains(owner, GitSuffix) && !Contains(repo, GitSuffix)
    ensures ParseGithubLink(SshPrefix + owner + "/" + repo + GitSuffix) == Some((owner, repo))
  {
    var link := SshPrefix + owner + "/" + repo + GitSuffix;
    var n := SshPrefix + (owner + "/" + repo);
    SshNormalForm(owner, repo);
    SshParsesRest(owner, repo);
    ParseNormalized(link, n);
  }

  lemma SshNormalForm(owner: string, repo: string)
    requires !Contains(owner, GitSuffix) && !Contains(repo, GitSuffix)
    ensures Normalize(SshPrefix + owner + "/" + repo + GitSuffix) == SshPrefix + (owner + "/" + repo)
  {
    NormalizeSshUrl(owner, repo);
    AppendThree(SshPrefix, owner, "/", repo);
  }

  lemma AppendThree(a: string, b: string, c: string, d: string)
    ensures a + b + c + d == a + (b + c + d)
  {
  }

  lemma SshParsesRest(owner: string, repo: string)
    requires owner != "" && repo != ""
    requires '/' !in owner && ':' !in owner && ':' !in repo
    ensures StartsWith(SshPrefix + (owner + "/" + repo), SshPrefix)
    ensures ParseSsh(SshPrefix + (owner + "/" + repo)) == Some((owner, repo))
  {
    SshPrefixRemoved(owner + "/" + repo);
    SshSplitComplete(SshPrefix + (owner + "/" + repo), owner, repo);
  }

  /** The parse of a link depends on its normal form alone. */
  lemma ParseNormalized(link: string, n: string)
    requires Normalize(link) == n
    ensures ParseGithubLink(link) == if StartsWith(n, SshPrefix) then ParseSsh(n) else ParseHttps(n)
  {
  }

  /** An SSH link whose rest holds no `:` loses exactly its prefix. */
  lemma SshPrefixRemoved(rest: string)
    requires ':' !in rest
    ensures StartsWith(SshPrefix + rest, SshPrefix)
    ensures RemoveAll(SshPrefix + rest, SshPrefix) == rest
  {
    assert (SshPrefix + rest)[..|SshPrefix|] == SshPrefix;
    assert SshPrefix[|SshPrefix| - 1] == ':';
    RemoveAllMissingChar(rest, SshPrefix, ':');
    RemoveAllLeading(SshPrefix, rest);
  }

  /** A leading occurrence is removed and the scan resumes after it. */
  lemma RemoveAllLeading(pat: string, rest: string)
    requires |pat| > 0
    ensures RemoveAll(pat + rest, pat) == RemoveAll(rest, pat)
  {
    assert (pat + rest)[..|pat|] == pat;
    assert (pat + rest)[|pat|..] == rest;
  }

  /** A pattern holding a character that `s` lacks does not occur in `s`. */
  lemma RemoveAllMissingChar(s: string, pat: string, c: char)
    requires |pat| > 0 && c in pat && c !in s
    ensures RemoveAll(s, pat) == s
  {
    NotContainsMissingChar(s, pat, c);
    RemoveAllAbsent(s, pat);
  }

  lemma {:induction false} NotContainsMissingChar(s: string, pat: string, c: char)
    requires c in pat && c !in s
    ensures !Contains(s, pat)
    decreases |s|
  {
    if |pat| <= |s| {
      assert c !in s[..|pat|];
    }
    if |s| > 0 {
      NotContainsMissingChar(s[1..], pat, c);
    }
  }

  /** Normalising the HTTPS clone URL drops its `.git` and nothing else. */
  lemma NormalizeHttpsUrl(owner: string, repo: string)
    requires !Contains(owner, GitSuffix) && !Contains(repo, GitSuffix)
    ensures Normalize("https://github.com/" + owner + "/" + repo + GitSuffix) == "https://github.com/" + owner + "/" + repo
  {
    HttpsHostKept();
    NormalizeCloneUrl("https://github.com", '/', owner, repo);
    HttpsSlash(owner, repo);
  }

  lemma HttpsHostKept()
    ensures RemoveAll("https://github.com", GitSuffix) == "https://github.com"
    ensures !IsSpace("https://github.com"[0]) && '/' !in GitSuffix
  {
    DottedNameKept("https://github", "com");
    HttpsHostShape();
  }

  lemma HttpsHostShape()
    ensures "https://github" + "." + "com" == "https://github.com"
  {
  }

  lemma HttpsSlash(owner: string, repo: string)
    ensures "https://github.com/" + owner + "/" + repo + GitSuffix == "https://github.com" + ['/'] + owner + "/" + repo + GitSuffix
    ensures "https://github.com/" + owner + "/" + repo == "https://github.com" + ['/'] + owner + "/" + repo
  {
  }

  /** Normalising the SSH clone URL drops its `.git` and nothing else. */
  lemma NormalizeSshUrl(owner: string, repo: string)
    requires !Contains(owner, GitSuffix) && !Contains(repo, GitSuffix)
    ensures Normalize(SshPrefix + owner + "/" + repo + GitSuffix) == SshPrefix + owner + "/" + repo
  {
    SshHostKept();
    NormalizeCloneUrl("git@github.com", ':', owner, repo);
    SshPrefixShape();
  }

  lemma SshHostKept()
    ensures RemoveAll("git@github.com", GitSuffix) == "git@github.com"
    ensures !IsSpace("git@github.com"[0]) && ':' !in GitSuffix
  {
    DottedNameKept("git@github", "com");
    SshHostShape();
  }

  lemma SshHostShape()
    ensures "git@github" + "." + "com" == "git@github.com"
  {
  }

  lemma SshPrefixShape()
    ensures "git@github.com" + [':'] == SshPrefix
  {
  }

  /** A clone URL `host c owner/repo.git` whose host starts with a visible
      character is normalised by removing its `.git` alone. */
  lemma NormalizeCloneUrl(host: string, c: char, owner: string, repo: string)
    requires |host| > 0 && !IsSpace(host[0])
    requires c !in GitSuffix && RemoveAll(host, GitSuffix) == host
    requires !Contains(owner, GitSuffix) && !Contains(repo, GitSuffix)
    ensures Normalize(host + [c] + owner + "/" + repo + GitSuffix) == host + [c] + owner + "/" + repo
  {
    var link := host + [c] + owner + "/" + repo + GitSuffix;
    assert link[0] == host[0] && link[|link| - 1] == 't';
    TrimmedUnchanged(link);
    RemoveGitFromUrl(host, c, owner, repo);
  }

  /** `.git` is removed from `host c owner/repo.git` only at the end, when
      neither the host nor the names hold it and `c` is not in it. */
  lemma RemoveGitFromUrl(host: string, c: char, owner: string, repo: string)
    requires c !in GitSuffix && RemoveAll(host, GitSuffix) == host
    requires !Contains(owner, GitSuffix) && !Contains(repo, GitSuffix)
    ensures RemoveAll(host + [c] + owner + "/" + repo + GitSuffix, GitSuffix) == host + [c] + owner + "/" + repo
  {
    Regroup(host, c, owner, repo, GitSuffix);
    RemoveGitFromPath(owner, repo);
    RemoveAllAround(host, c, owner + ['/'] + (repo + GitSuffix), GitSuffix);
  }

  lemma Regroup(host: string, c: char, owner: string, repo: string, suffix: string)
    ensures host + [c] + owner + "/" + repo + suffix == host + [c] + (owner + ['/'] + (repo + suffix))
    ensures host + [c] + owner + "/" + repo == host + [c] + (owner + ['/'] + repo)
  {
  }

  lemma RemoveGitFromPath(owner: string, repo: string)
    requires !Contains(owner, GitSuffix) && !Contains(repo, GitSuffix)
    ensures RemoveAll(owner + ['/'] + (repo + GitSuffix), GitSuffix) == owner + ['/'] + repo
  {
    RemoveAllAround(owner, '/', repo + GitSuffix, GitSuffix);
    assert GitSuffix[0] !in GitSuffix[1..];
    RemoveAllSuffix(repo, GitSuffix);
    RemoveAllAbsent(owner, GitSuffix);
    RemoveAllAbsent(repo, GitSuffix);
  }

  /** A host name `a.b` whose only dot is not followed by `g` holds no `.git`. */
  lemma DottedNameKept(a: string, b: string)
    requires '.' !in a && '.' !in b && |b| > 0 && b[0] != 'g'
    ensures RemoveAll(a + "." + b, GitSuffix) == a + "." + b
  {
    var d := "." + b;
    DotShape(a, b);
    GitSuffixStartsWithDot();
    RemoveAllPrefixKept(a, d, GitSuffix);
    DotNotGit(b);
    RemoveAllSkip(d, GitSuffix);
    RemoveAllMissingChar(b, GitSuffix, '.');
  }

  lemma DotShape(a: string, b: string)
    ensures a + "." + b == a + ("." + b)
    ensures ("." + b)[0] == '.' && ("." + b)[1..] == b && |"." + b| > 0
  {
  }

  lemma GitSuffixStartsWithDot()
    ensures |GitSuffix| > 0 && GitSuffix[0] == '.' && '.' in GitSuffix
  {
  }

  /** `.b` does not start with `.git` when `b` does not start with `g`. */
  lemma DotNotGit(b: string)
    requires |b| > 0 && b[0] != 'g'
    ensures !StartsWith("." + b, GitSuffix)
  {
    var d := "." + b;
    if |GitSuffix| <= |d| {
      assert d[..|GitSuffix|][1] == b[0];
    }
  }

  /** Removal scans `a` unchanged when `a` lacks the first character of `pat`. */
  lemma {:induction false} RemoveAllPrefixKept(a: string, b: string, pat: string)
    requires |pat| > 0 && pat[0] !in a
    ensures RemoveAll(a + b, pat) == a + RemoveAll(b, pat)
    decreases |a|
  {
    if |a| > 0 {
      assert (a + b)[0] == a[0];
      assert (a + b)[1..] == a[1..] + b;
      RemoveAllPrefixKept(a[1..], b, pat);
    } else {
      assert a + b == b;
    }
  }

  /** Strip and `rstrip('/')` leave alone a link that starts and ends with a
      character that is neither white space nor `/`. */
  lemma TrimmedUnchanged(link: string)
    requires |link| > 0 && !IsSpace(link[0]) && !IsSpace(link[|link| - 1]) && link[|link| - 1] != '/'
    ensures RStrip(Strip(link), '/') == link
  {
  }

  /** A trailing `/` does not change the parse (for a link that does not end
      in white space, which `strip` would otherwise keep before the `/`). */
  lemma TrailingSlashIgnored(link: string)
    requires |link| > 0 && !IsSpace(link[|link| - 1])
    ensures ParseGithubLink(link + "/") == ParseGithubLink(link)
  {
    var inner := TrimStart(link, IsSpace);
    StripAppendVisible(link, "/");
    StripVisibleEnd(link);
    RStripDropLast(inner, '/');
    SameTrimSameParse(link + "/", link);
  }

  /** A trailing `.git` does not change the parse (for a link that does not
      end in white space or `/`). */
  lemma GitSuffixIgnored(link: string)
    requires |link| > 0 && !IsSpace(link[|link| - 1]) && link[|link| - 1] != '/'
    ensures ParseGithubLink(link + GitSuffix) == ParseGithubLink(link)
  {
    var inner := TrimStart(link, IsSpace);
    SuffixedLinkTrimmed(link);
    LinkTrimmed(link);
    GitSuffixDropped(inner);
    NormalizeOfTrimmed(link + GitSuffix, inner + GitSuffix);
    NormalizeOfTrimmed(link, inner);
    SameNormalSameParse(link + GitSuffix, link);
  }

  lemma SuffixedLinkTrimmed(link: string)
    ensures RStrip(Strip(link + GitSuffix), '/') == TrimStart(link, IsSpace) + GitSuffix
  {
    GitSuffixVisible();
    TailTrimmed(link, GitSuffix);
  }

  lemma GitSuffixVisible()
    ensures |GitSuffix| > 0 && !IsSpace(GitSuffix[0])
    ensures !IsSpace(GitSuffix[|GitSuffix| - 1]) && GitSuffix[|GitSuffix| - 1] != '/'
  {
  }

  /** A tail that starts with a visible character and ends with one other
      than `/` survives strip and `rstrip('/')`. */
  lemma TailTrimmed(link: string, tail: string)
    requires |tail| > 0 && !IsSpace(tail[0]) && !IsSpace(tail[|tail| - 1]) && tail[|tail| - 1] != '/'
    ensures RStrip(Strip(link + tail), '/') == TrimStart(link, IsSpace) + tail
  {
    var inner := TrimStart(link, IsSpace);
    StripAppendVisible(link, tail);
    LastOfAppend(inner, tail);
    RStripKept(inner + tail, '/');
  }

  lemma LinkTrimmed(link: string)
    requires |link| > 0 && !IsSpace(link[|link| - 1]) && link[|link| - 1] != '/'
    ensures RStrip(Strip(link), '/') == TrimStart(link, IsSpace)
  {
    StripVisibleEnd(link);
    RStripKept(Strip(link), '/');
  }

  lemma GitSuffixDropped(s: string)
    ensures RemoveAll(s + GitSuffix, GitSuffix) == RemoveAll(s, GitSuffix)
  {
    assert GitSuffix[0] !in GitSuffix[1..];
    RemoveAllSuffix(s, GitSuffix);
  }

  lemma NormalizeOfTrimmed(link: string, t: string)
    requires RStrip(Strip(link), '/') == t
    ensures Normalize(link) == RemoveAll(t, GitSuffix)
  {
  }

  /** Links that agree after strip and `rstrip('/')` parse alike. */
  lemma SameTrimSameParse(a: string, b: string)
    requires RStrip(Strip(a), '/') == RStrip(Strip(b), '/')
    ensures ParseGithubLink(a) == ParseGithubLink(b)
  {
  }

  lemma SameNormalSameParse(a: string, b: string)
    requires Normalize(a) == Normalize(b)
    ensures ParseGithubLink(a) == ParseGithubLink(b)
  {
  }

  /** Every occurrence of `.git` is removed, not only a suffix: the
      repository `user.github.io` is read as `userhub.io`. */
  lemma GitInfixRemoved()
    ensures ParseGithubLink("https://github.com/user/user.github.io") == Some(("user", "userhub.io"))
  {
    var n := "https://github.com/" + "user" + "/" + "userhub.io";
    InfixExampleNormalized();
    HttpsUrlIsNotSsh("user", "userhub.io");
    InfixNamesSlashFree();
    ParseHttpsUrl("user", "userhub.io");
    ParseNormalized("https://github.com/user/user.github.io", n);
  }

  lemma InfixExampleNormalized()
    ensures Normalize("https://github.com/user/user.github.io") == "https://github.com/" + "user" + "/" + "userhub.io"
  {
    var link := "https://github.com/user/user.github.io";
    InfixExampleEnds();
    TrimmedUnchanged(link);
    HttpsHostKept();
    UserKept();
    InfixRepoRemoved();
    RemoveAllAroundTwice("https://github.com", '/', "user", "user.github.io", "userhub.io");
    InfixExampleSplit();
    InfixNormalSplit();
  }

  lemma InfixExampleEnds()
    ensures var link := "https://github.com/user/user.github.io";
      |link| > 0 && link[0] == 'h' && link[|link| - 1] == 'o'
  {
  }

  lemma InfixExampleSplit()
    ensures "https://github.com/user/user.github.io" == "https://github.com" + ['/'] + ("user" + ['/'] + "user.github.io")
  {
  }

  lemma InfixNormalSplit()
    ensures "https://github.com/" + "user" + "/" + "userhub.io" == "https://github.com" + ['/'] + ("user" + ['/'] + "userhub.io")
  {
  }

  lemma InfixNamesSlashFree()
    ensures "user" != "" && "userhub.io" != "" && '/' !in "user" && '/' !in "userhub.io"
  {
  }

  lemma UserKept()
    ensures RemoveAll("user", GitSuffix) == "user"
  {
    UserLacksDot();
    GitSuffixStartsWithDot();
    RemoveAllMissingChar("user", GitSuffix, '.');
  }

  lemma UserLacksDot()
    ensures '.' !in "user"
  {
  }

  lemma InfixRepoRemoved()
    ensures RemoveAll("user.github.io", GitSuffix) == "userhub.io"
  {
    InfixRepoShape();
    UserLacksDot();
    GitSuffixStartsWithDot();
    RemoveAllPrefixKept("user", GitSuffix + "hub.io", GitSuffix);
    RemoveAllLeading(GitSuffix, "hub.io");
    HubIoKept();
  }

  lemma InfixRepoShape()
    ensures "user.github.io" == "user" + (GitSuffix + "hub.io")
    ensures "user" + "hub.io" == "userhub.io"
  {
  }

  lemma HubIoKept()
    ensures RemoveAll("hub.io", GitSuffix) == "hub.io"
  {
    DottedNameKept("hub", "io");
    HubIoShape();
  }

  lemma HubIoShape()
    ensures "hub" + "." + "io" == "hub.io"
  {
  }

  /** Removal on `host c owner/rest` when the host and owner hold no
      occurrence and neither separator is part of `.git`. */
  lemma RemoveAllAroundTwice(host: string, c: char, owner: string, rest: string, rest': string)
    requires c !in GitSuffix
    requires RemoveAll(host, GitSuffix) == host && RemoveAll(owner, GitSuffix) == owner
    requires RemoveAll(rest, GitSuffix) == rest'
    ensures RemoveAll(host + [c] + (owner + ['/'] + rest), GitSuffix) == host + [c] + (owner + ['/'] + rest')
  {
    RemoveAllAround(owner, '/', rest, GitSuffix);
    RemoveAllAround(host, c, owner + ['/'] + rest, GitSuffix);
  }

  /** Once the SSH prefix is seen, the HTTPS reading is never tried, even
      when it would succeed. */
  lemma SshFailureIsFinal()
    ensures ParseGithubLink("git@github.com:/a/b/c/d") == None
    ensures ParseHttps("git@github.com:/a/b/c/d") == Some(("c", "d"))
  {
    var link := "git@github.com:/a/b/c/d";
    SshExampleNormalized();
    SshExampleFailsSsh();
    SshExampleParsesHttps();
    ParseNormalized(link, link);
  }

  lemma SshExampleNormalized()
    ensures Normalize("git@github.com:/a/b/c/d") == "git@github.com:/a/b/c/d"
    ensures StartsWith("git@github.com:/a/b/c/d", SshPrefix)
  {
    SshExampleEnds();
    TrimmedUnchanged("git@github.com:/a/b/c/d");
    SshExampleDotted();
    DottedNameKept("git@github", "com:/a/b/c/d");
    SshExamplePrefixed();
    SshPrefixRemoved("/a/b/c/d");
  }

  lemma SshExampleEnds()
    ensures var link := "git@github.com:/a/b/c/d";
      |link| > 0 && link[0] == 'g' && link[|link| - 1] == 'd'
  {
  }

  lemma SshExampleDotted()
    ensures "git@github.com:/a/b/c/d" == "git@github" + "." + "com:/a/b/c/d"
    ensures '.' !in "git@github" && '.' !in "com:/a/b/c/d"
  {
  }

  lemma SshExamplePrefixed()
    ensures "git@github.com:/a/b/c/d" == SshPrefix + "/a/b/c/d"
    ensures ':' !in "/a/b/c/d"
  {
  }

  lemma SshExampleFailsSsh()
    ensures ParseSsh("git@github.com:/a/b/c/d") == None
  {
    SshExamplePrefixed();
    SshPrefixRemoved("/a/b/c/d");
    LeadingSlashOwner("/a/b/c/d");
  }

  /** With a `/` first, the SSH owner would be empty. */
  lemma LeadingSlashOwner(rest: string)
    requires |rest| > 0 && rest[0] == '/'
    ensures IndexOf(rest, '/') == 0
  {
  }

  lemma SshExampleParsesHttps()
    ensures ParseHttps("git@github.com:/a/b/c/d") == Some(("c", "d"))
  {
    SshExamplePieces();
    SshExampleMentionsHost();
    ParseHttpsOfFive("git@github.com:/a/b/c/d", "git@github.com:", "a", "b", "c", "d");
  }

  lemma SshExamplePieces()
    ensures "git@github.com:/a/b/c/d" == "git@github.com:" + ['/'] + ("a" + ['/'] + ("b" + ['/'] + ("c" + ['/'] + "d")))
    ensures '/' !in "git@github.com:" && '/' !in "a" && '/' !in "b" && '/' !in "c" && '/' !in "d"
  {
  }

  lemma SshExampleMentionsHost()
    ensures Contains("git@github.com:/a/b/c/d", "github.com")
  {
    SshExampleAroundHost();
    ContainsInfix("git@", "github.com", ":/a/b/c/d");
  }

  lemma SshExampleAroundHost()
    ensures "git@github.com:/a/b/c/d" == "git@" + "github.com" + ":/a/b/c/d"
  {
  }

  /** A link mentioning the host that splits into five pieces yields its
      last two, when they are non-empty. */
  lemma ParseHttpsOfFive(link: string, a: string, b: string, c: string, d: string, e: string)
    requires '/' !in a && '/' !in b && '/' !in c && '/' !in d && '/' !in e
    requires link == a + ['/'] + (b + ['/'] + (c + ['/'] + (d + ['/'] + e)))
    requires Contains(link, "github.com") && d != "" && e != ""
    ensures ParseHttps(link) == Some((d, e))
  {
    SplitFive(a, b, c, d, e);
  }

  /** A link without any `/` never parses: neither branch can find an owner
      and a repository in it. */
  lemma SlashFreeNeverParses(link: string)
    requires '/' !in link
    ensures ParseGithubLink(link) == None
  {
    var n := Normalize(link);
    if '/' in n {
      NormalizeKeepsCharacters(link, '/');
    }
    var part := RemoveAll(n, SshPrefix);
    if '/' in part {
      RemoveAllKeepsCharacters(n, SshPrefix, '/');
    }
    assert Split(n, '/') == [n];
  }
}
