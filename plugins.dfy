/**
 * Request plugins: what a plugin sees of a logged request, what it reports
 * about it, the three calls through which the plugin manager drives a
 * plugin, and the one built-in plugin, MagicLoginPlugin, which recognises
 * submissions of the magic-login form and reports the submitted email.
 */
module Plugins {

  import opened Wrappers
  import opened PhpStrings
  import MagicAuth

  /** A PHP throwable: an \Exception, or an \Error (a missing class, an undefined method, a type error). */
  datatype Throwable = Exception(message: string) | Error(message: string)

  /** The result of a call that may throw. */
  datatype Fallible<T> = Ok(value: T) | Raised(thrown: Throwable)

  /**
   * The logged request a plugin inspects: its method, its URI string (path
   * and query), and its body, reading which may throw.
   */
  datatype LoggedRequest = LoggedRequest(httpMethod: string, uri: string, content: Fallible<string>)

  /** PluginData: a label and details on behalf of a plugin, or the error it met. */
  datatype PluginData =
    | PluginData(plugin: string, labelText: string, details: map<string, string>)
    | PluginError(plugin: string, error: Throwable)

  /**
   * A plugin class as the plugin manager uses it: `make` constructs it for a
   * logged request, `matchesRequest` says whether it applies, and
   * `getPluginData` reports on the request; each may throw.
   */
  datatype PluginBehaviour = PluginBehaviour(
    make: LoggedRequest -> Fallible<()>,
    matchesRequest: LoggedRequest -> Fallible<bool>,
    getPluginData: LoggedRequest -> Fallible<PluginData>)

  // ---------------------------------------------------------------------------
  // MagicLoginPlugin

  const MagicLoginTitle := "Magic Login"
  const MagicLoginType := "magic_login"
  /** The label reported for a login submission without an `email` field. */
  const UnknownEmail := "Unknown"

  /** getTitle */
  function MagicLoginGetTitle(): (title: string)
    ensures title == "Magic Login"
  {
    MagicLoginTitle
  }

  /** matchesRequest: the URI contains the login path anywhere, and the method is POST in any case. */
  predicate MagicLoginMatches(req: LoggedRequest) {
    Contains(req.uri, MagicAuth.LoginPath) && Upper(req.httpMethod) == "POST"
  }

  /**
   * getPluginData: the submitted `email` form field (or "Unknown") as the
   * label and as the `email` detail, next to the type `magic_login`; a body
   * that cannot be read gives the plugin's error data instead of a throw.
   */
  function MagicLoginData(parseForm: string -> map<string, string>, req: LoggedRequest): (d: PluginData)
    ensures d.plugin == MagicLoginGetTitle()
    ensures req.content.Raised? <==> d.PluginError?
    ensures req.content.Raised? ==> d.error == req.content.thrown
    ensures req.content.Ok? ==>
      var form := parseForm(req.content.value);
      && d.details.Keys == {"email", "type"}
      && d.details["email"] == d.labelText
      && d.details["type"] == "magic_login"
      && ("email" in form ==> d.labelText == form["email"])
      && ("email" !in form ==> d.labelText == "Unknown")
  {
    match req.content
    case Raised(e) => PluginError(MagicLoginGetTitle(), e)
    case Ok(content) =>
      var email := Lookup(parseForm(content), "email", UnknownEmail);
      PluginData(MagicLoginGetTitle(), email, map["email" := email, "type" := MagicLoginType])
  }

  /** MagicLoginPlugin as the plugin manager drives it: none of its three calls throws. */
  function MagicLoginBehaviour(parseForm: string -> map<string, string>): (b: PluginBehaviour)
    ensures forall req :: b.make(req).Ok? && b.matchesRequest(req) == Ok(MagicLoginMatches(req))
    ensures forall req :: b.getPluginData(req) == Ok(MagicLoginData(parseForm, req))
  {
    PluginBehaviour(
      req => Ok(()),
      req => Ok(MagicLoginMatches(req)),
      req => Ok(MagicLoginData(parseForm, req)))
  }

  /** The method is compared without regard to case: post, Post and POST all match. */
  lemma {:induction false} MagicLoginMethodIgnoresCase(req: LoggedRequest)
    ensures MagicLoginMatches(req) <==> Contains(req.uri, MagicAuth.LoginPath) && Lower(req.httpMethod) == "post"
    ensures MagicLoginMatches(req) == MagicLoginMatches(req.(httpMethod := Lower(req.httpMethod)))
    ensures MagicLoginMatches(req.(httpMethod := "post")) == MagicLoginMatches(req.(httpMethod := "POST"))
    ensures MagicLoginMatches(req.(httpMethod := "Post")) == MagicLoginMatches(req.(httpMethod := "POST"))
  {
    UpperMatchesIffLowerMatches(req.httpMethod, "POST");
    assert Lower("POST") == "post";
    UpperOfLower(req.httpMethod);
    assert Upper("post") == "POST";
    assert Upper("Post") == "POST";
    assert Upper("POST") == "POST";
  }

  /** The login path anywhere in the URI of a POST is a match. */
  lemma {:induction false} MagicLoginMatchesAnywhere(httpMethod: string, prefix: string, suffix: string,
                                                     content: Fallible<string>)
    requires Upper(httpMethod) == "POST"
    ensures MagicLoginMatches(LoggedRequest(httpMethod, prefix + MagicAuth.LoginPath + suffix, content))
  {
    var uri := prefix + MagicAuth.LoginPath + suffix;
    assert uri[|prefix|..|prefix| + |MagicAuth.LoginPath|] == MagicAuth.LoginPath;
    assert OccursAt(uri, MagicAuth.LoginPath, |prefix|);
  }

  /**
   * The plugin is looser than the gate: every login submission the gate
   * sees is a match for the plugin, whatever query its URI carries, but a
   * POST to a path that only ends with the login path (such as
   * `/x/__expose_magic_login?y`) is a match and not a login submission.
   */
  lemma {:induction false} PluginLooserThanGate(req: MagicAuth.Request, query: string, prefix: string,
                                                content: Fallible<string>)
    requires |prefix| > 0
    ensures MagicAuth.IsLoginFormSubmission(req) ==>
      MagicLoginMatches(LoggedRequest(req.httpMethod, req.path + query, content))
    ensures Upper(req.httpMethod) == "POST" ==>
      && MagicLoginMatches(LoggedRequest(req.httpMethod, prefix + MagicAuth.LoginPath + query, content))
      && !MagicAuth.IsLoginFormSubmission(req.(path := prefix + MagicAuth.LoginPath))
  {
    if MagicAuth.IsLoginFormSubmission(req) {
      assert req.path + query == "" + MagicAuth.LoginPath + query;
      MagicLoginMatchesAnywhere(req.httpMethod, "", query, content);
    }
    if Upper(req.httpMethod) == "POST" {
      MagicLoginMatchesAnywhere(req.httpMethod, prefix, query, content);
      assert |prefix + MagicAuth.LoginPath| != |MagicAuth.LoginPath|;
    }
  }
}
