/**
 * The HTTP variant of the feed client (`websockets_replacement.py`): it
 * builds its request headers from the environment, fetches the session
 * token from the `pstk` cookie of an HTTP response, and only subscribes
 * once a token is stored. It shares the record format and the outbound
 * templates of module `Wire`.
 *
 * The environment is a parameter (`map` from variable name to value) and
 * the HTTP exchange is an abstract `FetchResult`; the calls that perform
 * them are not modelled.
 */
module Replacement {
  import opened Wrappers
  import opened Strings
  import opened Wire

  // ---------------------------------------------------------------------
  // Request headers.

  /** Each request header and the environment variable its value comes from, in declaration order. */
  const HeaderVariables: seq<(string, string)> := [
    ("Accept", "ACCEPT"),
    ("Accept-Encoding", "ACCEPT_ENCODING"),
    ("Accept-Language", "ACCEPT_LANGUAGE"),
    ("Cache-Control", "CACHE_CONTROL"),
    ("Connection", "CONNECTION"),
    ("Cookie", "COOKIE"),
    ("Host", "HOST"),
    ("Origin", "ORIGIN"),
    ("Pragma", "PRAGMA"),
    ("Referer", "REFERER"),
    ("Sec-Ch-Ua", "SEC_CH_UA"),
    ("Sec-Ch-Ua-Mobile", "SEC_CH_UA_MOBILE"),
    ("Sec-Ch-Ua-Platform", "SEC_CH_UA_PLATFORM"),
    ("Sec-Fetch-Dest", "SEC_FETCH_DEST"),
    ("Sec-Fetch-Mode", "SEC_FETCH_MODE"),
    ("Sec-Fetch-Site", "SEC_FETCH_SITE"),
    ("Sec-Fetch-User", "SEC_FETCH_USER"),
    ("Upgrade-Insecure-Requests", "UPGRADE_INSECURE_REQUESTS"),
    ("User-Agent", "USER_AGENT"),
    ("Sec-WebSocket-Extensions", "HEADERS_SEC_WEBSOCKET_EXTENSIONS"),
    ("Sec-WebSocket-Protocol", "HEADERS_SEC_WEBSOCKET_PROTOCOL"),
    ("Sec-WebSocket-Version", "HEADERS_SEC_WEBSOCKET_VERSION")
  ]

  /** `os.getenv(name)`: the variable's value, or `None` when it is unset. */
  function GetEnv(env: map<string, string>, name: string): Option<string> {
    if name in env then Some(env[name]) else None
  }

  /** Each header name of `table` with the value of its variable in `env`, in order. */
  function LookUpHeaders(env: map<string, string>, table: seq<(string, string)>): seq<(string, Option<string>)> {
    seq(|table|, i requires 0 <= i < |table| => (table[i].0, GetEnv(env, table[i].1)))
  }

  /** The header table as declared: each header name with its possibly missing value, in order. */
  function Headers(env: map<string, string>): seq<(string, Option<string>)> {
    LookUpHeaders(env, HeaderVariables)
  }

  /** `{k: v for k, v in items if v is not None}`, keeping the table's order. */
  function FilterHeaders(items: seq<(string, Option<string>)>): seq<(string, string)>
    decreases |items|
  {
    if |items| == 0 then []
    else
      var rest := FilterHeaders(items[1..]);
      match items[0].1
      case None => rest
      case Some(v) => [(items[0].0, v)] + rest
  }

  /** The filtered headers are exactly the entries that have a value, with name and value unchanged. */
  lemma {:induction false} FilterHeadersKeeps(items: seq<(string, Option<string>)>)
    ensures forall k, v :: (k, v) in FilterHeaders(items) <==> (k, Some(v)) in items
    decreases |items|
  {
    if |items| > 0 {
      FilterHeadersKeeps(items[1..]);
      assert items == [items[0]] + items[1..];
    }
  }

  /** Filtering keeps the relative order: it applies entry by entry, front to back. */
  lemma {:induction false} FilterHeadersAppend(front: seq<(string, Option<string>)>, back: seq<(string, Option<string>)>)
    ensures FilterHeaders(front + back) == FilterHeaders(front) + FilterHeaders(back)
    decreases |front|
  {
    if |front| > 0 {
      assert (front + back)[0] == front[0];
      assert (front + back)[1..] == front[1..] + back;
      FilterHeadersAppend(front[1..], back);
    } else {
      assert front + back == back;
    }
  }

  /** With every header set, nothing is dropped and the values appear in declaration order. */
  lemma {:induction false} FilterHeadersAllSet(items: seq<(string, Option<string>)>)
    requires forall i :: 0 <= i < |items| ==> items[i].1.Some?
    ensures |FilterHeaders(items)| == |items|
    ensures forall i :: 0 <= i < |items| ==>
      FilterHeaders(items)[i] == (items[i].0, items[i].1.value)
    decreases |items|
  {
    if |items| > 0 {
      FilterHeadersAllSet(items[1..]);
    }
  }

  /**
   * A header is sent exactly when its variable is set, and then with that
   * variable's value (`Headers(env)` is `LookUpHeaders(env, HeaderVariables)`).
   */
  lemma SentHeaders(env: map<string, string>, table: seq<(string, string)>, name: string, value: string)
    ensures (name, value) in FilterHeaders(LookUpHeaders(env, table)) <==>
      exists i :: 0 <= i < |table| && table[i].0 == name &&
        table[i].1 in env && env[table[i].1] == value
  {
    var items := LookUpHeaders(env, table);
    FilterHeadersKeeps(items);
    if (name, Some(value)) in items {
      var i :| 0 <= i < |items| && items[i] == (name, Some(value));
      assert table[i].0 == name;
    }
    if exists i :: 0 <= i < |table| && table[i].0 == name && table[i].1 in env && env[table[i].1] == value {
      var i :| 0 <= i < |table| && table[i].0 == name && table[i].1 in env && env[table[i].1] == value;
      assert items[i] == (name, Some(value));
    }
  }

  // ---------------------------------------------------------------------
  // The session token.

  const CookieName: string := "pstk="

  /**
   * `cookies.split('pstk=')[1].split(';')[0] if 'pstk=' in cookies else None`:
   * the piece after the first `pstk=`, cut at its first `;`.
   */
  function ExtractToken(cookies: string): Option<string> {
    if Contains(cookies, CookieName) then
      Some(TakeUntil(Split(cookies, CookieName)[1], ';'))
    else None
  }

  /**
   * There is a token exactly when `pstk=` occurs. It is a prefix of the
   * text after the first `pstk=`, cut at the next `;` or the next `pstk=`,
   * and so contains neither.
   */
  lemma TokenAfterFirstCookie(cookies: string)
    ensures ExtractToken(cookies).None? <==> !Contains(cookies, CookieName)
    ensures Contains(cookies, CookieName) ==>
      var rest := cookies[Find(cookies, CookieName).value + |CookieName|..];
      var token := ExtractToken(cookies).value;
      token <= rest && ';' !in token && !Contains(token, CookieName) &&
      (token == rest || rest[|token|] == ';' || OccursAt(rest, CookieName, |token|))
  {
    if Contains(cookies, CookieName) {
      SplitSecondPiece(cookies, CookieName);
      var rest := cookies[Find(cookies, CookieName).value + |CookieName|..];
      var piece := Split(rest, CookieName)[0];
      var token := TakeUntil(piece, ';');
      SplitFirstPiece(rest, CookieName);
      TakeUntilIsPrefix(piece, ';');
      FreePrefix(token, piece, CookieName);
      if token != piece {
        assert rest[|token|] == piece[|token|];
      }
    }
  }

  /** The outcome of the session request: a transport error, or a status with an optional `Set-Cookie` value. */
  datatype FetchResult =
    | TransportError
    | Received(status: int, setCookie: Option<string>)

  /**
   * `_fetch_session_id`: `None` when the session URL is unset, on a
   * transport error or a status other than 200; otherwise the token of the
   * `Set-Cookie` value, `''` when that header is absent.
   */
  function FetchSessionId(sessionUrl: Option<string>, response: FetchResult): Option<string> {
    if sessionUrl.None? then None
    else
      match response
      case TransportError => None
      case Received(status, setCookie) =>
        if status != 200 then None else ExtractToken(setCookie.GetOr(""))
  }

  /**
   * A token comes back exactly when the URL is configured, the request
   * succeeded with status 200 and the cookies hold `pstk=`; in particular
   * never for another status, whatever the cookies.
   */
  lemma FetchSucceeds(sessionUrl: Option<string>, response: FetchResult)
    ensures FetchSessionId(sessionUrl, response).Some? <==>
      sessionUrl.Some? && response.Received? && response.status == 200 &&
      Contains(response.setCookie.GetOr(""), CookieName)
    ensures response.Received? && response.status != 200 ==>
      FetchSessionId(sessionUrl, response) == None
  {
    if sessionUrl.Some? && response.Received? && response.status == 200 {
      TokenAfterFirstCookie(response.setCookie.GetOr(""));
    }
  }

  /** An absent `Set-Cookie` header reads as `''`, which holds no token. */
  lemma NoCookieNoToken(sessionUrl: Option<string>, status: int)
    ensures FetchSessionId(sessionUrl, Received(status, None)) == None
  {
    TokenAfterFirstCookie("");
  }

  // ---------------------------------------------------------------------
  // The client.

  /** An instance attribute: `Unassigned` until its first assignment. */
  datatype Slot<T> = Unassigned | Assigned(value: T)

  /** What `subscribe_topics` does with the stored token. */
  datatype SubscribeStep =
    | AttributeMissing  // `self.session_id` was never assigned: `AttributeError`
    | Skipped           // the token is `None` or `''`: return without sending
    | Proceeds          // the token is set: go on to send the initial messages

  /** The guard at the head of `subscribe_topics`. */
  function SubscribeGuard(sessionId: Slot<Option<string>>): SubscribeStep {
    match sessionId
    case Unassigned => AttributeMissing
    case Assigned(token) => if Truthy(token) then Proceeds else Skipped
  }

  /**
   * Once `connect` has stored the fetch result, `subscribe_topics` proceeds
   * exactly when a non-empty token was fetched, which needs a configured
   * URL, status 200 and a `pstk=` cookie.
   */
  lemma SubscribeAfterConnect(sessionUrl: Option<string>, response: FetchResult)
    ensures SubscribeGuard(Assigned(FetchSessionId(sessionUrl, response))) != AttributeMissing
    ensures SubscribeGuard(Assigned(FetchSessionId(sessionUrl, response))) == Proceeds ==>
      sessionUrl.Some? && response.Received? && response.status == 200 &&
      Contains(response.setCookie.GetOr(""), CookieName)
  {
    FetchSucceeds(sessionUrl, response);
  }

  class WebSockets {
    /** `_URLS_CONNECTION` and `_URLS_SESSION_ID`. */
    const connectionUrl: Option<string>
    const sessionUrl: Option<string>
    /** The headers handed to the connection pool. */
    const headers: seq<(string, string)>
    /** `self.session_id`. */
    var sessionId: Slot<Option<string>>
    /** How many times `disconnect` ran; it only reports the disconnection. */
    var disconnects: nat

    /** The class attributes read from `env`, and `__init__`'s header filter. */
    constructor(env: map<string, string>)
      ensures connectionUrl == GetEnv(env, "URLS_CONNECTION")
      ensures sessionUrl == GetEnv(env, "URLS_SESSION_ID")
      ensures headers == FilterHeaders(Headers(env))
      ensures sessionId == Unassigned && disconnects == 0
    {
      connectionUrl := GetEnv(env, "URLS_CONNECTION");
      sessionUrl := GetEnv(env, "URLS_SESSION_ID");
      headers := FilterHeaders(Headers(env));
      sessionId := Unassigned;
      disconnects := 0;
    }

    method Disconnect()
      modifies this`disconnects
      ensures disconnects == old(disconnects) + 1
    {
      disconnects := disconnects + 1;
    }

    /** `connect`: stores the fetched token and disconnects when it is falsy. */
    method Connect(response: FetchResult)
      modifies this`sessionId, this`disconnects
      ensures sessionId == Assigned(FetchSessionId(sessionUrl, response))
      ensures disconnects == old(disconnects) + (if Truthy(FetchSessionId(sessionUrl, response)) then 0 else 1)
    {
      sessionId := Assigned(FetchSessionId(sessionUrl, response));
      if !Truthy(sessionId.value) {
        Disconnect();
        return;
      }
    }

    /**
     * The guard of `subscribe_topics`: reading a never-assigned attribute
     * raises, a falsy token returns at once, and only a truthy one goes on.
     */
    method SubscribeTopics() returns (step: SubscribeStep)
      ensures sessionId.Unassigned? ==> step == AttributeMissing
      ensures sessionId.Assigned? && !Truthy(sessionId.value) ==> step == Skipped
      ensures step == Proceeds <==> sessionId.Assigned? && Truthy(sessionId.value)
    {
      step := SubscribeGuard(sessionId);
    }
  }
}
