// The base class of RESTful Symfony actions: the validation of a request
// against the action's API table, and the choice between a JSON body and a
// 204 response once the action has run.

module RestfulActions {
  import opened Wrappers

  /** The `Http::*` status constants the class uses; their numeric values are not needed. */
  datatype Status = NotFound | MethodNotAllowed | Unauthorized | BadRequest | NoContent

  /** The `required` entry: a single parameter name, or a list of them. */
  datatype Required = One(name: string) | Many(names: seq<string>)

  /**
   * One method's entry in the API table. `auth` is None when it is not set
   * (or null) and otherwise its truth value; `required` is None when it is
   * not set.
   */
  datatype MethodSpec = MethodSpec(auth: Option<bool>, required: Option<Required>)

  /** `$_api`: action name, then request method, then the method's entry. */
  type Api = map<string, map<string, MethodSpec>>

  /**
   * The parts of the request the class reads: the method, the query-string
   * parameters and all parameters. A name absent from a map reads as null.
   */
  datatype Request = Request(httpMethod: string, getParameters: map<string, string>, parameters: map<string, string>)

  /** `$_keyParameterName`. */
  const KeyParameterName: string := "key"

  /** A scalar `required` is read as a one-element list. */
  function RequiredList(r: Required): (names: seq<string>)
    ensures r.One? ==> names == [r.name]
    ensures r.Many? ==> names == r.names
  {
    match r
    case One(n) => [n]
    case Many(ns) => ns
  }

  /** The position of the first name whose parameter is null. */
  function FirstMissing(names: seq<string>, parameters: map<string, string>): (r: Option<nat>)
    ensures r.Some? ==> r.value < |names| && names[r.value] !in parameters &&
                        forall j :: 0 <= j < r.value ==> names[j] in parameters
    ensures r.None? ==> forall j :: 0 <= j < |names| ==> names[j] in parameters
    decreases |names|
  {
    if |names| == 0 then None
    else if names[0] !in parameters then Some(0)
    else match FirstMissing(names[1..], parameters)
         case None => None
         case Some(i) => Some(i + 1)
  }

  /** The key check fails: a key is configured and the query parameter is not that key. */
  predicate KeyRejected(key: Option<string>, request: Request)
  {
    key.Some? && (KeyParameterName !in request.getParameters || request.getParameters[KeyParameterName] != key.value)
  }

  /**
   * The status with which `checkIsValidApiRequest` stops the request, or None
   * when the request passes: the four conditions are tried in order and the
   * first that holds decides.
   */
  function Verdict(api: Api, key: Option<string>, actionName: string, request: Request): Option<Status>
  {
    if actionName !in api then Some(NotFound)
    else if request.httpMethod !in api[actionName] then Some(MethodNotAllowed)
    else
      var spec := api[actionName][request.httpMethod];
      if spec.auth == Some(true) && KeyRejected(key, request) then Some(Unauthorized)
      else if spec.required.Some? && FirstMissing(RequiredList(spec.required.value), request.parameters).Some?
      then Some(BadRequest)
      else None
  }

  /** An unknown action is refused as not found, whatever else holds. */
  lemma UnknownActionNotFound(api: Api, key: Option<string>, actionName: string, request: Request)
    ensures Verdict(api, key, actionName, request) == Some(NotFound) <==> actionName !in api
  {
  }

  /** A known action whose method is not listed is refused as not allowed, and only then. */
  lemma UnlistedMethodNotAllowed(api: Api, key: Option<string>, actionName: string, request: Request)
    ensures Verdict(api, key, actionName, request) == Some(MethodNotAllowed) <==>
              actionName in api && request.httpMethod !in api[actionName]
  {
  }

  /**
   * Unauthorized exactly when the action and method are listed, `auth` is set
   * and true, a key is configured, and the query parameter is not the key.
   */
  lemma UnauthorizedExactly(api: Api, key: Option<string>, actionName: string, request: Request)
    ensures Verdict(api, key, actionName, request) == Some(Unauthorized) <==>
              actionName in api && request.httpMethod in api[actionName] &&
              api[actionName][request.httpMethod].auth == Some(true) &&
              key.Some? && (KeyParameterName !in request.getParameters ||
                            request.getParameters[KeyParameterName] != key.value)
  {
  }

  /** Without a configured key no request is unauthorized, and the verdict is that of the same table without `auth`. */
  lemma NullKeyNeverUnauthorized(api: Api, actionName: string, request: Request)
    ensures Verdict(api, None, actionName, request) != Some(Unauthorized)
    ensures forall key :: Verdict(api, None, actionName, request) == Verdict(NoAuth(api), key, actionName, request)
  {
    forall key ensures Verdict(api, None, actionName, request) == Verdict(NoAuth(api), key, actionName, request) {
      if actionName in api && request.httpMethod in api[actionName] {
        assert NoAuth(api)[actionName][request.httpMethod] ==
               api[actionName][request.httpMethod].(auth := None);
      }
    }
  }

  /** The same table with every `auth` entry removed. */
  function NoAuth(api: Api): (r: Api)
    ensures r.Keys == api.Keys
    ensures forall a :: a in r ==> r[a].Keys == api[a].Keys
  {
    map a | a in api :: map m | m in api[a] :: api[a][m].(auth := None)
  }

  /**
   * Bad request exactly when no earlier check fires, `required` is set, and
   * one of the required parameters (a scalar counting as a one-element list)
   * is null.
   */
  lemma BadRequestExactly(api: Api, key: Option<string>, actionName: string, request: Request)
    ensures Verdict(api, key, actionName, request) == Some(BadRequest) <==>
              actionName in api && request.httpMethod in api[actionName] &&
              var spec := api[actionName][request.httpMethod];
              !(spec.auth == Some(true) && KeyRejected(key, request)) &&
              spec.required.Some? &&
              exists j :: 0 <= j < |RequiredList(spec.required.value)| &&
                          RequiredList(spec.required.value)[j] !in request.parameters
  {
  }

  /** The request passes exactly when the action and method are listed and neither the key nor a required parameter is refused. */
  lemma PassesExactly(api: Api, key: Option<string>, actionName: string, request: Request)
    ensures Verdict(api, key, actionName, request).None? <==>
              actionName in api && request.httpMethod in api[actionName] &&
              var spec := api[actionName][request.httpMethod];
              !(spec.auth == Some(true) && KeyRejected(key, request)) &&
              (spec.required.Some? ==>
                 forall j :: 0 <= j < |RequiredList(spec.required.value)| ==>
                   RequiredList(spec.required.value)[j] in request.parameters)
  {
  }

  /** What the action's response shows after `execute`. */
  datatype Outcome<J> =
    | Halted(status: Status)   // stopped by checkIsValidApiRequest, headers sent
    | Json(results: J)         // content type application/json, body json_encode(results)
    | Empty                    // status 204, no view

  /**
   * `execute`: a refused request stops with its status; otherwise the action
   * runs, and its `results`, when set, become the JSON body, else the
   * response is 204.
   */
  function ExecuteOutcome<J>(verdict: Option<Status>, results: Option<J>): (o: Outcome<J>)
    ensures verdict.Some? ==> o == Halted(verdict.value)
    ensures verdict.None? && results.Some? ==> o == Json(results.value)
    ensures verdict.None? && results.None? ==> o == Empty
  {
    if verdict.Some? then Halted(verdict.value)
    else if results.Some? then Json(results.value)
    else Empty
  }

  /**
   * The action object: its API table, its key, its `results` and the
   * response it writes to. `json_encode` is opaque, so the body holds the
   * results themselves.
   */
  class Actions<J> {
    const api: Api
    const key: Option<string>
    const actionName: string
    var results: Option<J>
    var statusCode: Option<Status>
    var headersSent: bool
    var contentType: Option<string>
    var body: Option<J>

    constructor (api: Api, key: Option<string>, actionName: string)
      ensures this.api == api && this.key == key && this.actionName == actionName
      ensures results == None && statusCode == None && !headersSent
      ensures contentType == None && body == None
    {
      this.api := api;
      this.key := key;
      this.actionName := actionName;
      results := None;
      statusCode := None;
      headersSent := false;
      contentType := None;
      body := None;
    }

    /** `respondWith`: set the status; a final response also sends the headers and stops (the result is true). */
    method RespondWith(code: Status, final: bool) returns (stopped: bool)
      modifies this
      ensures statusCode == Some(code) && stopped == final
      ensures headersSent == (old(headersSent) || final)
      ensures results == old(results) && contentType == old(contentType) && body == old(body)
    {
      statusCode := Some(code);
      if final {
        headersSent := true;
      }
      stopped := final;
    }

    /** `checkIsValidApiRequest`: stop with the verdict's status, or leave the response alone. */
    method CheckIsValidApiRequest(request: Request) returns (stopped: bool)
      modifies this
      ensures stopped <==> Verdict(api, key, actionName, request).Some?
      ensures stopped ==> statusCode == Verdict(api, key, actionName, request) && headersSent
      ensures !stopped ==> statusCode == old(statusCode) && headersSent == old(headersSent)
      ensures results == old(results) && contentType == old(contentType) && body == old(body)
    {
      if actionName !in api {
        stopped := RespondWith(NotFound, true);
      } else if request.httpMethod !in api[actionName] {
        stopped := RespondWith(MethodNotAllowed, true);
      } else if api[actionName][request.httpMethod].auth == Some(true) && key.Some? &&
                (KeyParameterName !in request.getParameters ||
                 key.value != request.getParameters[KeyParameterName]) {
        stopped := RespondWith(Unauthorized, true);
      } else if api[actionName][request.httpMethod].required.Some? {
        var requiredParams := RequiredList(api[actionName][request.httpMethod].required.value);
        for i := 0 to |requiredParams|
          invariant forall j :: 0 <= j < i ==> requiredParams[j] in request.parameters
        {
          if requiredParams[i] !in request.parameters {
            stopped := RespondWith(BadRequest, true);
            return;
          }
        }
        stopped := false;
      } else {
        stopped := false;
      }
    }

    /**
     * `execute`: validate, run the action (which sets `results` to
     * `actionResults`), then render the results as JSON or answer 204.
     */
    method Execute(request: Request, actionResults: Option<J>) returns (stopped: bool)
      modifies this
      ensures var o := ExecuteOutcome(Verdict(api, key, actionName, request), actionResults);
              (o.Halted? ==> stopped && statusCode == Some(o.status) && headersSent &&
                             results == old(results) && contentType == old(contentType) && body == old(body)) &&
              (o.Json? ==> !stopped && results == actionResults && statusCode == old(statusCode) &&
                           headersSent == old(headersSent) &&
                           contentType == Some("application/json") && body == Some(o.results)) &&
              (o.Empty? ==> !stopped && results == actionResults && statusCode == Some(NoContent) &&
                            headersSent == old(headersSent) && contentType == old(contentType) && body == old(body))
    {
      stopped := CheckIsValidApiRequest(request);
      if stopped {
        return;
      }
      results := actionResults;
      if results.Some? {
        contentType := Some("application/json");
        body := results;
      } else {
        var final := RespondWith(NoContent, false);
      }
    }
  }
}
