/**
 * The pull-request push adapter for a GitLab-hosted forge. It pushes the
 * current commit to `origin` and POSTs the pull request to
 * `<base_url>/<slug>/pulls`, with the slug taken from the remote URL as it
 * stands: no `.git` deletion, no percent-encoding, and no lookup first.
 */
module GitlabPullRequest {
  import opened Results
  import opened Forge
  import Text

  /** The project path named by a remote URL: the text after the last `:`,
      or all of it when there is none. */
  function RepoSlug(remoteUrl: string): (r: string)
    ensures ':' !in r
    ensures |r| <= |remoteUrl| && r == remoteUrl[|remoteUrl| - |r|..]
    ensures |r| < |remoteUrl| ==> remoteUrl[|remoteUrl| - |r| - 1] == ':'
  {
    Text.AfterLast(remoteUrl, ':')
  }

  /** For an scp-style remote `host:path`, with no `:` in the path, the slug
      is the path unchanged, a trailing `.git` included. */
  lemma SlugOfRemote(host: string, path: string)
    requires ':' !in path
    ensures RepoSlug(host + ":" + path) == path
  {
    var u := host + ":" + path;
    assert u[|host|] == ':' && u[|host| + 1..] == path;
    Text.AfterLastCharacterization(u, ':');
  }

  /** The POST URL `<base_url>/<slug>/pulls`: after the base URL and a `/`,
      the path segments are those of the slug, each `/` in it still a
      separator, followed by `pulls`. */
  function PullsUrl(settings: Settings, slug: string): (r: string)
    ensures var prefix := settings.baseUrl + "/";
      && |prefix| <= |r| && r[..|prefix|] == prefix
      && Text.Split(r[|prefix|..], '/') == Text.Split(slug, '/') + ["pulls"]
  {
    var prefix := settings.baseUrl + "/";
    var r := prefix + slug + "/pulls";
    assert r[|prefix|..] == slug + ['/'] + "pulls";
    Text.SplitAppendLast(slug, "pulls", '/');
    r
  }

  /** The only header sent. */
  function Headers(settings: Settings): map<string, string>
  {
    map["Private-Token" := settings.accessToken]
  }

  /** The pull request sent. */
  function CreateBody(local: Local, branch: string): map<string, string>
  {
    map[
      "title" := Text.Strip(local.subject),
      "body" := Text.Strip(local.body),
      "base" := local.targetBranch,
      "head" := branch]
  }

  /** A successful push: both effects, and the `html_url` of the created
      pull request. */
  predicate Succeeded(settings: Settings, local: Local, create: Response)
  {
    !settings.fork && local.pushSucceeds
    && create.Answered? && create.json.JObject? && "html_url" in create.json.fields
  }

  /** What `push` does once `git push` has succeeded: send `post`, and
      report the `html_url` of its answer. */
  function Create(branch: string, post: Effect, create: Response): (r: Run)
    ensures r.trace == [GitPush(Origin, Refspec(branch)), post]
    ensures r.outcome.Ok? <==> create.Answered? && create.json.JObject? && "html_url" in create.json.fields
    ensures r.outcome.Ok? ==> r.outcome.value == create.json.fields["html_url"]
    ensures create.Refused? ==> r.outcome == Err(HttpError(create.status, create.body))
    ensures create.Answered? ==> r.outcome == Field(create.json, "html_url")
  {
    var push := GitPush(Origin, Refspec(branch));
    match Body(create)
    case Err(e) => Run([push, post], Err(e))
    case Ok(json) => Run([push, post], Field(json, "html_url"))
  }

  /** `push`. Fork mode is refused before anything happens. Otherwise the
      commit is pushed to `origin` as `HEAD:<branch>` and the pull request
      is POSTed straight to the `/pulls` URL of the slug; the run reports
      the new pull request's `html_url`. A failure stops the run after the
      effect that failed. */
  function Push(settings: Settings, branch: string, local: Local, create: Response): (r: Run)
    ensures settings.fork ==> r == Run([], Err(NotImplemented(ForkMessage)))
    ensures !settings.fork ==> 1 <= |r.trace| <= 2 && r.trace[0] == GitPush(Origin, Refspec(branch))
    ensures !settings.fork && !local.pushSucceeds ==> r == Run([GitPush(Origin, Refspec(branch))], Err(GitFailed))
    ensures |r.trace| == 2 <==> !settings.fork && local.pushSucceeds
    ensures |r.trace| == 2 ==>
      r.trace[1] == HttpPost(PullsUrl(settings, RepoSlug(local.remoteUrl)), Headers(settings), CreateBody(local, branch))
    ensures r.outcome.Ok? <==> Succeeded(settings, local, create)
    ensures r.outcome.Ok? ==> r.outcome.value == create.json.fields["html_url"]
    ensures create.Refused? && |r.trace| == 2 ==> r.outcome == Err(HttpError(create.status, create.body))
    ensures create.Answered? && |r.trace| == 2 ==> r.outcome == Field(create.json, "html_url")
  {
    if settings.fork then
      Run([], Err(NotImplemented(ForkMessage)))
    else if !local.pushSucceeds then
      Run([GitPush(Origin, Refspec(branch))], Err(GitFailed))
    else
      var post := HttpPost(PullsUrl(settings, RepoSlug(local.remoteUrl)), Headers(settings), CreateBody(local, branch));
      Create(branch, post, create)
  }

  /** The pull-request variant makes no lookup: whenever the push gets past
      `git push`, its one request is the POST. */
  lemma NoLookup(settings: Settings, branch: string, local: Local, create: Response)
    ensures var r := Push(settings, branch, local, create);
      forall k :: 0 <= k < |r.trace| ==> !r.trace[k].HttpGet?
  {
    var t := Push(settings, branch, local, create).trace;
    assert |t| <= 2;
    assert |t| >= 1 ==> t[0].GitPush?;
    assert |t| == 2 ==> t[1].HttpPost?;
    PushAndPostOnly(t);
  }

  lemma PushAndPostOnly(t: seq<Effect>)
    requires |t| <= 2 && (|t| >= 1 ==> t[0].GitPush?) && (|t| == 2 ==> t[1].HttpPost?)
    ensures forall k :: 0 <= k < |t| ==> !t[k].HttpGet?
  {
  }

  /** For a remote `host:group/project`, the pull request goes to
      `<base_url>/group/project/pulls`. */
  lemma PullsUrlOfRemote(settings: Settings, host: string, group: string, project: string)
    requires ':' !in group && ':' !in project
    ensures PullsUrl(settings, RepoSlug(host + ":" + group + "/" + project))
      == settings.baseUrl + "/" + group + "/" + project + "/pulls"
  {
    assert host + ":" + group + "/" + project == host + ":" + (group + "/" + project);
    SlugOfRemote(host, group + "/" + project);
  }

  /** With the default settings the push is not refused, and requests go
      below `https://gitlab.example.com/api/v4`. */
  lemma DefaultsDoNotFork(token: string, branch: string, local: Local, create: Response)
    ensures Push(Defaults(token), branch, local, create).trace[0] == GitPush("origin", "HEAD:" + branch)
    ensures Defaults(token).baseUrl == "https://gitlab.example.com/api/v4"
  {
  }
}
