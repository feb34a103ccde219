/** Repository URL logic: normalising a remote URL to a browsable base,
    choosing the base from CI environment variables or the `origin` remote,
    and building the URL of a tag for the hosting provider. */
module Repo {
  import opened Wrappers
  import opened Strings

  /** The external `git` executable: arguments to trimmed standard output,
      `None` when it cannot be launched or exits with a non-zero status. */
  type Git = seq<string> -> Option<string>

  /** Environment variables that are set (and valid Unicode). */
  type Env = map<string, string>

  const GitSuffix := ".git"
  const ScpPrefix := "git@github.com:"
  const SshPrefix := "ssh://git@github.com/"
  const GithubHttps := "https://github.com/"
  const RemoteUrlArgs := ["config", "--get", "remote.origin.url"]

  /** A string of fewer than four characters appended to one of the three
      GitHub prefixes does not end in `.git`: the character four places
      from the end is never a `.`. */
  lemma ShortTailNoGit(prefix: string, rest: string)
    requires prefix in [ScpPrefix, SshPrefix, GithubHttps] && |rest| < 4
    ensures !EndsWith(prefix + rest, GitSuffix)
  {
    var s := prefix + rest;
    assert s[|s| - 4] == prefix[|prefix| - 4 + |rest|];
    assert prefix[|prefix| - 4 + |rest|] != '.';
  }

  /** A suffix of at least four characters decides whether the whole ends in `.git`. */
  lemma LongTailGit(prefix: string, rest: string)
    requires |rest| >= 4
    ensures EndsWith(prefix + rest, GitSuffix) <==> EndsWith(rest, GitSuffix)
  {
    var s := prefix + rest;
    assert s[|s| - 4..] == rest[|rest| - 4..];
  }

  /** `normalise_repo_base`: trim, strip every trailing `.git`, then rewrite
      the two SSH spellings of a GitHub remote to `https://github.com/...`. */
  function NormaliseRepoBase(url: string): (r: string)
    ensures !EndsWith(r, GitSuffix)
    ensures var u := TrimEndMatches(Trim(url), GitSuffix);
      && (StartsWith(u, ScpPrefix) ==> r == GithubHttps + u[|ScpPrefix|..])
      && (!StartsWith(u, ScpPrefix) && StartsWith(u, SshPrefix) ==> r == GithubHttps + u[|SshPrefix|..])
      && (!StartsWith(u, ScpPrefix) && !StartsWith(u, SshPrefix) ==> r == u)
  {
    var u := TrimEndMatches(Trim(url), GitSuffix);
    match StripPrefix(u, ScpPrefix)
    case Some(rest) =>
      NormalisedNoGit(ScpPrefix, rest);
      GithubHttps + rest
    case None =>
      match StripPrefix(u, SshPrefix)
      case Some(rest) =>
        NormalisedNoGit(SshPrefix, rest);
        GithubHttps + rest
      case None => u
  }

  /** Moving the remainder of a GitHub SSH remote onto the HTTPS prefix keeps
      it free of a trailing `.git`. */
  lemma NormalisedNoGit(prefix: string, rest: string)
    requires prefix in [ScpPrefix, SshPrefix] && !EndsWith(prefix + rest, GitSuffix)
    ensures !EndsWith(GithubHttps + rest, GitSuffix)
  {
    if |rest| < 4 {
      ShortTailNoGit(GithubHttps, rest);
    } else {
      LongTailGit(prefix, rest);
      LongTailGit(GithubHttps, rest);
    }
  }

  /** `git@github.com:org/repo` and `git@github.com:org/repo.git` both become
      `https://github.com/org/repo`. */
  lemma NormaliseScp(path: string, withSuffix: bool)
    requires !EndsWith(path, GitSuffix)
    requires |path| > 0 ==> !IsWhitespace(path[|path| - 1])
    ensures NormaliseRepoBase(ScpPrefix + path + (if withSuffix then GitSuffix else "")) == GithubHttps + path
  {
    NormaliseGithub(ScpPrefix, path, withSuffix);
  }

  /** `ssh://git@github.com/org/repo[.git]` becomes `https://github.com/org/repo`. */
  lemma NormaliseSsh(path: string, withSuffix: bool)
    requires !EndsWith(path, GitSuffix)
    requires |path| > 0 ==> !IsWhitespace(path[|path| - 1])
    ensures NormaliseRepoBase(SshPrefix + path + (if withSuffix then GitSuffix else "")) == GithubHttps + path
  {
    NormaliseGithub(SshPrefix, path, withSuffix);
    assert !StartsWith(SshPrefix + path, ScpPrefix) by {
      assert (SshPrefix + path)[0] != ScpPrefix[0];
    }
  }

  lemma NormaliseGithub(prefix: string, path: string, withSuffix: bool)
    requires prefix in [ScpPrefix, SshPrefix]
    requires !EndsWith(path, GitSuffix)
    requires |path| > 0 ==> !IsWhitespace(path[|path| - 1])
    ensures var u := TrimEndMatches(Trim(prefix + path + (if withSuffix then GitSuffix else "")), GitSuffix);
      u == prefix + path && StartsWith(u, prefix) && u[|prefix|..] == path
  {
    var s := prefix + path + (if withSuffix then GitSuffix else "");
    assert s[0] == 'g' || s[0] == 's';
    assert !IsWhitespace(s[|s| - 1]) by {
      if withSuffix {
        assert s[|s| - 1] == 't';
      } else if |path| == 0 {
        assert s[|s| - 1] == prefix[|prefix| - 1];
      } else {
        assert s[|s| - 1] == path[|path| - 1];
      }
    }
    TrimNoop(s);
    var base := prefix + path;
    assert !EndsWith(base, GitSuffix) by {
      if |path| < 4 {
        ShortTailNoGit(prefix, path);
      } else {
        LongTailGit(prefix, path);
      }
    }
    if withSuffix {
      assert EndsWith(s, GitSuffix) && s[..|s| - 4] == base;
    } else {
      assert s == base;
    }
    assert StartsWith(base, prefix) && base[|prefix|..] == path;
  }

  /** Every trailing `.git` is stripped, not just one. */
  lemma NormaliseStripsRepeatedSuffix(base: string)
    requires !EndsWith(base, GitSuffix) && !StartsWith(base, "git@") && !StartsWith(base, "ssh:")
    requires |base| > 0 && !IsWhitespace(base[0])
    ensures NormaliseRepoBase(base + GitSuffix + GitSuffix) == base
  {
    var s := base + GitSuffix + GitSuffix;
    assert s[|s| - 1] == 't' && s[0] == base[0];
    TrimNoop(s);
    StripGitTwice(base);
    assert TrimEndMatches(Trim(s), GitSuffix) == base;
    PrefixOfPrefix(base, ScpPrefix, "git@");
    PrefixOfPrefix(base, SshPrefix, "ssh:");
    assert !StartsWith(base, ScpPrefix) && !StartsWith(base, SshPrefix);
  }

  lemma StripGitTwice(base: string)
    requires !EndsWith(base, GitSuffix)
    ensures TrimEndMatches(base + GitSuffix + GitSuffix, GitSuffix) == base
  {
    var once := base + GitSuffix;
    var twice := once + GitSuffix;
    assert EndsWith(twice, GitSuffix) && twice[..|twice| - 4] == once;
    assert EndsWith(once, GitSuffix) && once[..|once| - 4] == base;
    assert TrimEndMatches(base, GitSuffix) == base;
    assert TrimEndMatches(once, GitSuffix) == TrimEndMatches(base, GitSuffix);
    assert TrimEndMatches(twice, GitSuffix) == TrimEndMatches(once, GitSuffix);
  }

  lemma PrefixOfPrefix(s: string, p: string, q: string)
    requires StartsWith(p, q)
    ensures StartsWith(s, p) ==> StartsWith(s, q)
  {
    if StartsWith(s, p) {
      assert s[..|q|] == p[..|q|];
    }
  }

  /** `format!("{}/{}", server.trim_end_matches('/'), path)`. */
  function JoinServer(server: string, path: string): (r: string)
    ensures var s := TrimEndChar(server, '/');
      r == s + "/" + path && (|s| > 0 ==> s[|s| - 1] != '/')
  {
    TrimEndChar(server, '/') + "/" + path
  }

  predicate HasPair(env: Env, a: string, b: string) {
    a in env && b in env
  }

  /** `resolve_repo_base`: the first source that is available, in a fixed
      priority order; each pair of variables is used only when both are set. */
  function ResolveRepoBase(env: Env, git: Git): (r: Option<string>)
    ensures r.None? <==>
      && !HasPair(env, "GITHUB_SERVER_URL", "GITHUB_REPOSITORY")
      && !HasPair(env, "CI_SERVER_URL", "CI_PROJECT_PATH")
      && "BITBUCKET_GIT_HTTP_ORIGIN" !in env
      && "BITBUCKET_REPO_FULL_NAME" !in env
      && git(RemoteUrlArgs).None?
    ensures HasPair(env, "GITHUB_SERVER_URL", "GITHUB_REPOSITORY") ==>
      r == Some(JoinServer(env["GITHUB_SERVER_URL"], env["GITHUB_REPOSITORY"]))
  {
    if HasPair(env, "GITHUB_SERVER_URL", "GITHUB_REPOSITORY") then
      Some(JoinServer(env["GITHUB_SERVER_URL"], env["GITHUB_REPOSITORY"]))
    else if HasPair(env, "CI_SERVER_URL", "CI_PROJECT_PATH") then
      Some(JoinServer(env["CI_SERVER_URL"], env["CI_PROJECT_PATH"]))
    else if "BITBUCKET_GIT_HTTP_ORIGIN" in env then
      Some(NormaliseRepoBase(env["BITBUCKET_GIT_HTTP_ORIGIN"]))
    else if "BITBUCKET_REPO_FULL_NAME" in env then
      Some("https://bitbucket.org/" + env["BITBUCKET_REPO_FULL_NAME"])
    else match git(RemoteUrlArgs)
      case Some(remote) => Some(NormaliseRepoBase(remote))
      case None => None
  }

  /** The sources of a repository base, highest priority first. */
  function Candidates(env: Env, git: Git): seq<Option<string>> {
    [ if HasPair(env, "GITHUB_SERVER_URL", "GITHUB_REPOSITORY")
        then Some(JoinServer(env["GITHUB_SERVER_URL"], env["GITHUB_REPOSITORY"])) else None,
      if HasPair(env, "CI_SERVER_URL", "CI_PROJECT_PATH")
        then Some(JoinServer(env["CI_SERVER_URL"], env["CI_PROJECT_PATH"])) else None,
      if "BITBUCKET_GIT_HTTP_ORIGIN" in env
        then Some(NormaliseRepoBase(env["BITBUCKET_GIT_HTTP_ORIGIN"])) else None,
      if "BITBUCKET_REPO_FULL_NAME" in env
        then Some("https://bitbucket.org/" + env["BITBUCKET_REPO_FULL_NAME"]) else None,
      match git(RemoteUrlArgs) case Some(remote) => Some(NormaliseRepoBase(remote)) case None => None ]
  }

  /** The first candidate that is present. */
  function FirstSome(cs: seq<Option<string>>): (r: Option<string>)
    ensures r.None? <==> forall i :: 0 <= i < |cs| ==> cs[i].None?
    ensures r.Some? ==> exists i :: 0 <= i < |cs| && cs[i] == r && forall j :: 0 <= j < i ==> cs[j].None?
  {
    if |cs| == 0 then None
    else if cs[0].Some? then cs[0]
    else
      var r := FirstSome(cs[1..]);
      assert forall i :: 1 <= i < |cs| ==> cs[i] == cs[1..][i - 1];
      if r.Some? then
        var i :| 0 <= i < |cs| - 1 && cs[1..][i] == r && forall j :: 0 <= j < i ==> cs[1..][j].None?;
        assert cs[i + 1] == r;
        r
      else r
  }

  /** The chosen base is the highest-priority source that is available:
      every source before it is absent. */
  lemma ResolveIsFirstCandidate(env: Env, git: Git)
    ensures ResolveRepoBase(env, git) == FirstSome(Candidates(env, git))
  {
    var cs := Candidates(env, git);
    FirstSomeStep(cs);
    FirstSomeStep(cs[1..]);
    FirstSomeStep(cs[2..]);
    FirstSomeStep(cs[3..]);
    FirstSomeStep(cs[4..]);
    assert cs[1..][1..] == cs[2..] && cs[2..][1..] == cs[3..] && cs[3..][1..] == cs[4..];
    assert cs[4..][1..] == [];
  }

  lemma FirstSomeStep(cs: seq<Option<string>>)
    requires |cs| > 0
    ensures FirstSome(cs) == if cs[0].Some? then cs[0] else FirstSome(cs[1..])
  {
  }

  /** `tag_url`: the provider's page for `tag`, chosen by the first of
      `github.com`, `gitlab`, `bitbucket.org` that occurs in `base`. */
  function TagUrl(base: string, tag: string): (r: string)
    ensures StartsWith(r, base) && EndsWith(r, tag)
    ensures Contains(base, "github.com") ==> r == base + "/releases/tag/" + tag
    ensures !Contains(base, "github.com") && Contains(base, "gitlab") ==> r == base + "/-/tags/" + tag
    ensures !Contains(base, "github.com") && !Contains(base, "gitlab") && Contains(base, "bitbucket.org")
      ==> r == base + "/src/" + tag
    ensures !Contains(base, "github.com") && !Contains(base, "gitlab") && !Contains(base, "bitbucket.org")
      ==> r == base + "/tags/" + tag
  {
    var middle :=
      if Contains(base, "github.com") then "/releases/tag/"
      else if Contains(base, "gitlab") then "/-/tags/"
      else if Contains(base, "bitbucket.org") then "/src/"
      else "/tags/";
    var r := base + middle + tag;
    assert r[..|base|] == base;
    assert r[|r| - |tag|..] == tag;
    r
  }
}
