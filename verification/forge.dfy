/**
 * What the two GitLab push adapters share: their settings, the effects a
 * push has on the outside world (a `git push`, HTTP requests), the answers
 * the forge gives, and the ways a push can fail. A push is modelled as a
 * pure function from its inputs to a `Run`: the effects it performed, in
 * order, and how it ended. Git and the forge are inputs: whether the push
 * succeeds, and the response each request gets.
 */
module Forge {
  import opened Results

  /** The adapters' settings (both declare the same three fields). */
  datatype Settings = Settings(accessToken: string, baseUrl: string, fork: bool)

  const DefaultBaseUrl: string := "https://gitlab.example.com/api/v4"

  /** The settings a configuration that gives only a token gets. */
  function Defaults(accessToken: string): Settings
  {
    Settings(accessToken, DefaultBaseUrl, false)
  }

  /** The message fork mode is refused with (two spaces, as written). */
  const ForkMessage: string := "fork support  not yet implemented"

  /** The remote every push goes to when not forking. */
  const Origin: string := "origin"

  /** `HEAD:<branch>`: push the current commit to `branch` on the remote. */
  function Refspec(branch: string): string
  {
    "HEAD:" + branch
  }

  /** What git says about the repository being pushed: the URL of its
      `origin` remote, the subject and body of the last commit (already
      decoded), the branch the change targets, and whether `git push`
      succeeds. */
  datatype Local = Local(
    remoteUrl: string, subject: string, body: string, targetBranch: string, pushSucceeds: bool)

  /** A decoded JSON value, as far as the adapters look into it. */
  datatype Json = JString(s: string) | JObject(fields: map<string, Json>) | JOther

  /** An effect on the outside world. Request bodies are the JSON objects
      sent, as maps from key to string value; their serialisation is not
      modelled. */
  datatype Effect =
    | GitPush(remote: string, refspec: string)
    | HttpGet(url: string, headers: map<string, string>)
    | HttpPost(url: string, headers: map<string, string>, body: map<string, string>)

  /** The forge's answer to a request: a success with its decoded JSON, or
      an error status with its body. */
  datatype Response = Answered(json: Json) | Refused(status: int, body: string)

  /** How a push fails. */
  datatype PushError =
    | NotImplemented(message: string)   // fork mode
    | GitFailed                         // `git push` exited non-zero
    | HttpError(status: int, body: string)
    | KeyError(key: string)             // a JSON object without the key read
    | TypeError                         // indexing a JSON value that is not an object
    | BadUrl                            // a request URL that is not a string: the request cannot be built

  /** The effects a push performed, in order, and its outcome: the URL
      value it reports, or the error it stopped with. */
  datatype Run = Run(trace: seq<Effect>, outcome: Result<Json, PushError>)

  /** `value[key]` on decoded JSON: the field of an object that has it, a
      `KeyError` for an object without it, a `TypeError` for anything else. */
  function Field(value: Json, key: string): (r: Result<Json, PushError>)
    ensures r.Ok? <==> value.JObject? && key in value.fields
    ensures r.Ok? ==> r.value == value.fields[key]
    ensures r.Err? ==> r.error == (if value.JObject? then KeyError(key) else TypeError)
  {
    match value
    case JObject(fields) => if key in fields then Ok(fields[key]) else Err(KeyError(key))
    case _ => Err(TypeError)
  }

  /** The JSON of a successful response; a refused request raises. */
  function Body(resp: Response): (r: Result<Json, PushError>)
    ensures r.Ok? <==> resp.Answered?
    ensures resp.Answered? ==> r == Ok(resp.json)
    ensures resp.Refused? ==> r == Err(HttpError(resp.status, resp.body))
  {
    match resp
    case Answered(json) => Ok(json)
    case Refused(status, body) => Err(HttpError(status, body))
  }
}
