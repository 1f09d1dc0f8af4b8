/**
 * The GitLab merge-request push adapter. It pushes the current commit to
 * `origin`, looks the project up by its percent-encoded path, reads the
 * merge-request endpoint from the project's `_links`, and POSTs the merge
 * request there.
 */
module GitlabMergeRequest {
  import opened Results
  import opened Forge
  import Text
  import Percent

  const GitSuffix: string := ".git"

  /** `.git` cannot overlap itself, so its occurrences are disjoint. */
  lemma GitSuffixBorderless()
    ensures Text.Borderless(GitSuffix)
  {
    forall k | 0 < k < |GitSuffix| ensures GitSuffix[k..] != GitSuffix[..|GitSuffix| - k] {
      assert GitSuffix[k..][0] == GitSuffix[k] != '.';
      assert GitSuffix[..|GitSuffix| - k][0] == '.';
    }
  }

  /** The project path named by a remote URL: the text after the last `:`
      (all of it when there is none), with every `.git` in it deleted. */
  function RepoSlug(remoteUrl: string): (r: string)
    ensures ':' !in r
    ensures |r| <= |Text.AfterLast(remoteUrl, ':')|
  {
    var tail := Text.AfterLast(remoteUrl, ':');
    Text.ReplaceAbsent(tail, GitSuffix, "", ':');
    Text.Replace(tail, GitSuffix, "")
  }

  /** The slug keeps exactly the characters after the last `:` that lie in
      no occurrence of `.git` there, in order: every `.git` goes, not only a
      trailing one. */
  lemma SlugDeletesEveryGit(remoteUrl: string)
    ensures RepoSlug(remoteUrl) == Text.KeptFrom(Text.AfterLast(remoteUrl, ':'), GitSuffix, 0)
  {
    GitSuffixBorderless();
    Text.ReplaceDeletesEveryOccurrence(Text.AfterLast(remoteUrl, ':'), GitSuffix);
  }

  /** The text after the host of an scp-style remote `host:tail`, when the
      tail holds no `:`. */
  lemma AfterHost(host: string, tail: string)
    requires ':' !in tail
    ensures Text.AfterLast(host + ":" + tail, ':') == tail
  {
    var u := host + ":" + tail;
    assert u[|host|] == ':' && u[|host| + 1..] == tail;
    Text.AfterLastCharacterization(u, ':');
  }

  /** Deleting `.git` from `path.git`, where the path holds no `.git`,
      leaves the path. */
  lemma DropGitSuffix(path: string)
    requires forall j :: !Text.OccursAt(path, GitSuffix, j)
    ensures Text.Replace(path + GitSuffix, GitSuffix, "") == path
  {
    GitSuffixBorderless();
    Text.NoStraddleIntoAppended(path, GitSuffix);
    assert path + GitSuffix + "" == path + GitSuffix;
    Text.ReplaceAtFirst(path + GitSuffix, path, GitSuffix, "", "");
  }

  /** For an scp-style remote `host:path.git`, or `host:path`, whose path
      holds no `:` and no `.git`, the slug is the path. */
  lemma SlugOfRemote(host: string, path: string)
    requires ':' !in path
    requires forall j :: !Text.OccursAt(path, GitSuffix, j)
    ensures RepoSlug(host + ":" + path + GitSuffix) == path
    ensures RepoSlug(host + ":" + path) == path
  {
    Text.ReplaceAbsent(GitSuffix, GitSuffix, "", ':');
    assert ':' !in path + GitSuffix;
    assert host + ":" + path + GitSuffix == host + ":" + (path + GitSuffix);
    AfterHost(host, path + GitSuffix);
    DropGitSuffix(path);
    AfterHost(host, path);
    Text.ReplaceWithoutOccurrence(path, GitSuffix, "");
  }

  /** `.git` can only start at a `.`. */
  lemma NoGitWithoutDot(s: string, j: int)
    requires 0 <= j < |s| && s[j] != '.'
    ensures !Text.OccursAt(s, GitSuffix, j)
  {
    if j + |GitSuffix| <= |s| {
      assert s[j..j + |GitSuffix|][0] == s[j];
    }
  }

  /** An inner `.git` goes as well as the trailing one: `a.gitb.git`, for
      an `a` without dots and a `b` without `.git`, gives `ab`. */
  lemma InnerGitDeleted(a: string, b: string)
    requires '.' !in a
    requires forall j :: !Text.OccursAt(b, GitSuffix, j)
    ensures Text.Replace(a + GitSuffix + b + GitSuffix, GitSuffix, "") == a + b
  {
    var rest := b + GitSuffix;
    var t := a + GitSuffix + rest;
    assert t == a + GitSuffix + b + GitSuffix;
    forall j | 0 <= j < |a| ensures !Text.OccursAt(t, GitSuffix, j) {
      assert t[j] == a[j];
      NoGitWithoutDot(t, j);
    }
    Text.ReplaceAtFirst(t, a, GitSuffix, rest, "");
    DropGitSuffix(b);
  }

  /** For instance `git@gitlab.com:team/my.github.io.git` gives the slug
      `team/myhub.io`. */
  lemma InnerGitExample(remoteUrl: string)
    requires remoteUrl == "git@gitlab.com:team/my.github.io.git"
    ensures RepoSlug(remoteUrl) == "team/myhub.io"
  {
    var a, b := "team/my", "hub.io";
    var tail := a + GitSuffix + b + GitSuffix;
    assert remoteUrl == "git@gitlab.com" + ":" + tail;
    assert a + b == "team/myhub.io";
    HubHasNoGit(b);
    InnerGitDeleted(a, b);
    AfterHost("git@gitlab.com", tail);
  }

  lemma HubHasNoGit(b: string)
    requires b == "hub.io"
    ensures forall j :: !Text.OccursAt(b, GitSuffix, j)
  {
    forall j ensures !Text.OccursAt(b, GitSuffix, j) {
      if 0 <= j < |b| && j != 3 {
        NoGitWithoutDot(b, j);
      }
    }
  }

  /** The project lookup URL, `<base_url>/projects/<quote(slug, safe='')>`:
      after the fixed prefix comes a single path segment, made only of
      unreserved characters and `%XX` escapes, that percent-decodes to the
      slug. */
  function ProjectUrl(settings: Settings, slug: string): (r: string)
    ensures var prefix := settings.baseUrl + "/projects/";
      && |prefix| <= |r| && r[..|prefix|] == prefix
      && '/' !in r[|prefix|..]
      && (forall i :: |prefix| <= i < |r| ==> Percent.Unreserved(r[i]) || r[i] == '%')
      && Percent.Unquote(r[|prefix|..]) == Some(slug)
  {
    var prefix := settings.baseUrl + "/projects/";
    var r := prefix + Percent.Quote(slug);
    assert r[|prefix|..] == Percent.Quote(slug);
    Percent.UnquoteQuote(slug);
    r
  }

  /** A nested-group project `g/s/p` is looked up as `g%2Fs%2Fp`: every `/`
      of the slug is escaped, nothing else is. */
  lemma NestedProjectUrl(settings: Settings, host: string, path: string)
    requires ':' !in path
    requires forall j :: !Text.OccursAt(path, GitSuffix, j)
    requires forall i :: 0 <= i < |path| ==> Percent.Unreserved(path[i]) || path[i] == '/'
    ensures ProjectUrl(settings, RepoSlug(host + ":" + path + GitSuffix))
      == settings.baseUrl + "/projects/" + Text.Replace(path, "/", "%2F")
  {
    SlugOfRemote(host, path);
    Percent.QuotePath(path);
  }

  /** The header of the project lookup. */
  function LookupHeaders(settings: Settings): map<string, string>
  {
    map["Private-Token" := settings.accessToken]
  }

  /** The headers of the merge-request POST. */
  function CreateHeaders(settings: Settings): map<string, string>
  {
    map["Private-Token" := settings.accessToken, "Content-Type" := "application/json"]
  }

  /** The merge request sent. */
  function CreateBody(local: Local, branch: string): map<string, string>
  {
    map[
      "title" := Text.Strip(local.subject),
      "description" := Text.Strip(local.body),
      "target_branch" := local.targetBranch,
      "source_branch" := branch]
  }

  /** The answer to a project lookup holds some value under
      `_links.merge_requests`. */
  predicate HasLinkValue(lookup: Response)
  {
    && lookup.Answered?
    && lookup.json.JObject? && "_links" in lookup.json.fields
    && lookup.json.fields["_links"].JObject? && "merge_requests" in lookup.json.fields["_links"].fields
  }

  /** The link a project lookup's answer holds under
      `_links.merge_requests`, when it holds one. */
  predicate HasLink(lookup: Response)
  {
    HasLinkValue(lookup) && lookup.json.fields["_links"].fields["merge_requests"].JString?
  }

  function Link(lookup: Response): string
    requires HasLink(lookup)
  {
    lookup.json.fields["_links"].fields["merge_requests"].s
  }

  /** `get_mr_url` after its GET: `resp.json['_links']['merge_requests']`.
      A refused lookup raises the HTTP error, a missing key a `KeyError`,
      indexing a non-object a `TypeError`; a link that is not a string
      cannot be requested at all. */
  function MergeRequestsUrl(lookup: Response): (r: Result<string, PushError>)
    ensures r.Ok? <==> HasLink(lookup)
    ensures r.Ok? ==> r.value == Link(lookup)
    ensures lookup.Refused? ==> r == Err(HttpError(lookup.status, lookup.body))
    ensures lookup.Answered? && !lookup.json.JObject? ==> r == Err(TypeError)
    ensures lookup.Answered? && lookup.json.JObject? && "_links" !in lookup.json.fields ==>
      r == Err(KeyError("_links"))
    ensures lookup.Answered? && lookup.json.JObject? && "_links" in lookup.json.fields ==>
      var links := lookup.json.fields["_links"];
      && (!links.JObject? ==> r == Err(TypeError))
      && (links.JObject? && "merge_requests" !in links.fields ==> r == Err(KeyError("merge_requests")))
    ensures HasLinkValue(lookup) && !HasLink(lookup) ==> r == Err(BadUrl)
  {
    match Body(lookup)
    case Err(e) => Err(e)
    case Ok(json) =>
      match Field(json, "_links")
      case Err(e) => Err(e)
      case Ok(links) =>
        match Field(links, "merge_requests")
        case Err(e) => Err(e)
        case Ok(link) => if link.JString? then Ok(link.s) else Err(BadUrl)
  }

  /** A successful push: the three effects in order, and the `web_url` of
      the created merge request. */
  predicate Succeeded(settings: Settings, branch: string, local: Local, lookup: Response, create: Response)
  {
    !settings.fork && local.pushSucceeds && HasLink(lookup)
    && create.Answered? && create.json.JObject? && "web_url" in create.json.fields
  }

  /** What `push` does once `git push` has succeeded: send the lookup
      `get`, then POST `data` to the endpoint the lookup named. */
  function Requests(settings: Settings, branch: string, get: Effect, data: map<string, string>,
                    lookup: Response, create: Response): (r: Run)
    ensures 2 <= |r.trace| <= 3 && r.trace[0] == GitPush(Origin, Refspec(branch)) && r.trace[1] == get
    ensures |r.trace| == 3 <==> HasLink(lookup)
    ensures |r.trace| == 3 ==> r.trace[2] == HttpPost(Link(lookup), CreateHeaders(settings), data)
    ensures !HasLink(lookup) ==> r.outcome == Err(MergeRequestsUrl(lookup).error)
    ensures |r.trace| == 3 && create.Refused? ==> r.outcome == Err(HttpError(create.status, create.body))
    ensures |r.trace| == 3 && create.Answered? ==> r.outcome == Field(create.json, "web_url")
    ensures r.outcome.Ok? <==>
      HasLink(lookup) && create.Answered? && create.json.JObject? && "web_url" in create.json.fields
    ensures r.outcome.Ok? ==> r.outcome.value == create.json.fields["web_url"]
  {
    var push := GitPush(Origin, Refspec(branch));
    match MergeRequestsUrl(lookup)
    case Err(e) => Run([push, get], Err(e))
    case Ok(url) =>
      var post := HttpPost(url, CreateHeaders(settings), data);
      match Body(create)
      case Err(e) => Run([push, get, post], Err(e))
      case Ok(json) => Run([push, get, post], Field(json, "web_url"))
  }

  /** `push`. Fork mode is refused before anything happens. Otherwise the
      commit is pushed to `origin` as `HEAD:<branch>`, the project is looked
      up, and the merge request is POSTed to the endpoint the lookup named;
      the run reports the new merge request's `web_url`. A failure stops
      the run after the effect that failed. */
  function Push(settings: Settings, branch: string, local: Local, lookup: Response, create: Response): (r: Run)
    ensures settings.fork ==> r == Run([], Err(NotImplemented(ForkMessage)))
    ensures !settings.fork ==> 1 <= |r.trace| <= 3 && r.trace[0] == GitPush(Origin, Refspec(branch))
    ensures !settings.fork && !local.pushSucceeds ==> r == Run([GitPush(Origin, Refspec(branch))], Err(GitFailed))
    ensures |r.trace| >= 2 ==>
      r.trace[1] == HttpGet(ProjectUrl(settings, RepoSlug(local.remoteUrl)), LookupHeaders(settings))
    ensures |r.trace| == 3 <==> !settings.fork && local.pushSucceeds && HasLink(lookup)
    ensures |r.trace| == 3 ==>
      r.trace[2] == HttpPost(Link(lookup), CreateHeaders(settings), CreateBody(local, branch))
    ensures r.outcome.Ok? <==> Succeeded(settings, branch, local, lookup, create)
    ensures r.outcome.Ok? ==> r.outcome.value == create.json.fields["web_url"]
    ensures !settings.fork && local.pushSucceeds && !HasLink(lookup) ==>
      r.outcome == Err(MergeRequestsUrl(lookup).error)
    ensures |r.trace| == 3 && create.Refused? ==> r.outcome == Err(HttpError(create.status, create.body))
    ensures |r.trace| == 3 && create.Answered? ==> r.outcome == Field(create.json, "web_url")
    ensures |r.trace| >= 2 <==> !settings.fork && local.pushSucceeds
  {
    if settings.fork then
      Run([], Err(NotImplemented(ForkMessage)))
    else if !local.pushSucceeds then
      Run([GitPush(Origin, Refspec(branch))], Err(GitFailed))
    else
      var get := HttpGet(ProjectUrl(settings, RepoSlug(local.remoteUrl)), LookupHeaders(settings));
      Requests(settings, branch, get, CreateBody(local, branch), lookup, create)
  }

  /** The POST goes wherever the lookup says, not to a URL built from a
      template: two lookups naming different endpoints lead to POSTs to
      those different endpoints. */
  lemma PostFollowsLookup(settings: Settings, branch: string, local: Local, link: string, create: Response)
    requires !settings.fork && local.pushSucceeds
    ensures var lookup := Answered(JObject(map["_links" := JObject(map["merge_requests" := JString(link)])]));
      var r := Push(settings, branch, local, lookup, create);
      |r.trace| == 3 && r.trace[2].url == link
  {
    var lookup := Answered(JObject(map["_links" := JObject(map["merge_requests" := JString(link)])]));
    assert HasLink(lookup);
  }

  /** With the default settings the push is not refused: it starts with the
      `git push` to `origin`. */
  lemma DefaultsDoNotFork(token: string, branch: string, local: Local, lookup: Response, create: Response)
    ensures Push(Defaults(token), branch, local, lookup, create).trace[0] == GitPush("origin", "HEAD:" + branch)
    ensures Defaults(token).baseUrl == "https://gitlab.example.com/api/v4"
  {
  }
}
