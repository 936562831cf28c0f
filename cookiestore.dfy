/**
 * What each operation of the cookie store does, as functions of the
 * store's settings and the page state: the jar behind `document.cookie`,
 * the cookie strings written to it, and the callback deliveries made so far.
 * The class in `cookies.dfy` is proved to follow these functions.
 */
module CookieStore {
  import opened Wrappers
  import opened JsObject
  import opened JsString
  import Uri
  import opened Json
  import opened CookieHeader
  import opened Policies

  // ================================================================== events

  /** A listener passed to `on`; only its identity is observable. */
  type Callback = nat

  /** The argument a listener is called with. */
  datatype Payload =
    | NoData                                              // the default `{}`
    | SetCookieData(key: string, value: string, maxAge: int, path: string,
                    sameSite: string, domain: string, secure: bool, cookie: string)
    | DeleteCookieData(key: string, maxAge: int, path: string, givenDomain: Option<string>)
    | DeleteAllData(path: string, givenDomain: Option<string>)
    | PolicyData(policy: string)
    | RecordData(record: Obj<Value>)

  /** One call of a listener. */
  datatype Delivery = Delivery(event: string, callback: Callback, data: Payload)

  /** The `events` table: each event's listeners in registration order. */
  type Listeners = map<string, seq<Callback>>

  function Listening(events: Listeners, event: string): seq<Callback> {
    if event in events then events[event] else []
  }

  /**
   * `on(event, callback)`. Registering under `__proto__` assigns the
   * object's prototype instead of an own property, which `trigger` never
   * looks at, so it changes nothing observable.
   */
  function Register(events: Listeners, event: string, callback: Callback): Listeners {
    if event == "__proto__" then events
    else events[event := Listening(events, event) + [callback]]
  }

  /** `trigger(event, data)`: each listener of the event, in order, with the same data. */
  function Fire(events: Listeners, event: string, data: Payload): (r: seq<Delivery>)
    ensures |r| == |Listening(events, event)|
  {
    var cbs := Listening(events, event);
    seq(|cbs|, i requires 0 <= i < |cbs| => Delivery(event, cbs[i], data))
  }

  // ================================================================== state

  /** The fields of a store instance. */
  datatype Config = Config(extraPolicies: seq<string>, domain: string, secure: bool,
                           policiesKey: string, events: Listeners)

  /** What the page holds: the cookie jar, every cookie string written, every delivery made. */
  datatype World = World(jar: Jar, written: seq<string>, delivered: seq<Delivery>)

  /** The options of `set`; `None` is a missing option, which takes the default. */
  datatype SetOptions = SetOptions(maxAge: Option<int>, path: Option<string>, sameSite: Option<string>,
                                   domain: Option<string>, secure: Option<bool>)

  const NoOptions := SetOptions(None, None, None, None, None)

  /** One year in seconds, the default lifetime. */
  const DefaultMaxAge := 60 * 60 * 24 * 365

  // ============================================================== set/delete

  /** The attribute string `set` writes to `document.cookie`. */
  function CookieString(key: string, value: string, domain: string, sameSite: string,
                        path: string, maxAge: int, secure: bool): string {
    Uri.Encode(key) + "=" + Uri.Encode(value) + ";" + DomainAttribute(domain)
    + OtherAttributes(sameSite, path, maxAge, secure)
  }

  /** `domain ? ` domain=${domain};` : ""`. */
  function DomainAttribute(domain: string): string {
    if domain != "" then " domain=" + domain + ";" else ""
  }

  function OtherAttributes(sameSite: string, path: string, maxAge: int, secure: bool): string {
    " samesite=" + sameSite + "; path=" + path + "; max-age=" + IntToString(maxAge)
    + (if secure then "; secure" else "")
  }

  /** The setCookie payload of `set(key, value, opts)`, with the defaults filled in. */
  function SetData(cfg: Config, key: string, value: string, opts: SetOptions): Payload {
    var maxAge := opts.maxAge.GetOr(DefaultMaxAge);
    var path := opts.path.GetOr("/");
    var sameSite := opts.sameSite.GetOr("Lax");
    var domain := opts.domain.GetOr(cfg.domain);
    var secure := opts.secure.GetOr(cfg.secure);
    SetCookieData(key, value, maxAge, path, sameSite, domain, secure,
                  CookieString(key, value, domain, sameSite, path, maxAge, secure))
  }

  /**
   * `set(key, value, opts)`: nothing for the empty key; otherwise the
   * cookie string is written (the jar takes the encoded name and value) and
   * setCookie fires.
   */
  function Set(cfg: Config, w: World, key: string, value: string, opts: SetOptions): (r: World) {
    if key == "" then w
    else
      var d := SetData(cfg, key, value, opts);
      World(Store(w.jar, Uri.Encode(key), Uri.Encode(value), d.maxAge),
            w.written + [d.cookie],
            w.delivered + Fire(cfg.events, "setCookie", d))
  }

  /** `domain || undefined`: an empty domain counts as none. */
  function DomainOption(domain: Option<string>): Option<string> {
    if domain.Some? && domain.value != "" then domain else None
  }

  /** `delete(key, path, domain)`: an expired `set`, then deleteCookie. */
  function Delete(cfg: Config, w: World, key: string, path: string, domain: Option<string>): (r: World) {
    var d := DomainOption(domain);
    var w1 := Set(cfg, w, key, "", SetOptions(Some(-1), Some(path), None, d, None));
    w1.(delivered := w1.delivered + Fire(cfg.events, "deleteCookie", DeleteCookieData(key, -1, path, d)))
  }

  /** `delete` for each of `keys` in turn. */
  function DeleteEach(cfg: Config, w: World, keys: seq<string>, path: string, domain: Option<string>): (r: World)
    decreases |keys|
  {
    if keys == [] then w
    else Delete(cfg, DeleteEach(cfg, w, keys[..|keys| - 1], path, domain), keys[|keys| - 1], path, domain)
  }

  /** The names `deleteAll` goes through: `Object.keys(this.all)`. */
  function AllNames(jar: Jar): seq<string> {
    Keys(All(Header(jar)))
  }

  /** `deleteAll(path, domain)`: delete each name `all` lists, then deleteAllCookies. */
  function DeleteAll(cfg: Config, w: World, path: string, domain: Option<string>): (r: World) {
    var w1 := DeleteEach(cfg, w, AllNames(w.jar), path, domain);
    w1.(delivered := w1.delivered + Fire(cfg.events, "deleteAllCookies", DeleteAllData(path, domain)))
  }

  // ================================================================ reading

  /** `exists(key)`: some segment of `document.cookie` names the key, and `all` can hold it. */
  predicate Exists(jar: Jar, key: string): (b: bool)
    ensures b <==>
      Admissible(key) && exists i :: 0 <= i < |Segments(Header(jar))| && Entry(Segments(Header(jar))[i]).0 == key
  {
    AllHasKey(Header(jar), key);
    HasKey(All(Header(jar)), key)
  }

  /**
   * `get(key)`: the decoded value, `None` (null) when `all` lacks the key;
   * a segment without `=` decodes the text "undefined"; a malformed escape
   * throws URIError.
   */
  function Get(jar: Jar, key: string): (r: Outcome<Option<string>>)
    ensures r == Return(None) <==> !Exists(jar, key)
  {
    var all := All(Header(jar));
    if HasKey(all, key) then
      match Uri.Decode(JsObject.Get(all, key).value.GetOr("undefined"))
      case None => Throw(URIError)
      case Some(s) => Return(Some(s))
    else Return(None)
  }

  /**
   * `hasValue(key, value)` with a string, `null` or `undefined` (`None`) to
   * compare: it throws where `get` does, and a missing value compares equal
   * exactly when the cookie does not exist.
   */
  function HasValue(jar: Jar, key: string, value: Option<string>): (r: Outcome<bool>)
    ensures r.Throw? <==> Get(jar, key).Throw?
    ensures value.None? ==> (r == Return(true) <==> !Exists(jar, key))
  {
    match Get(jar, key)
    case Throw(e) => Throw(e)
    case Return(r) => Return(r == value)
  }

  /**
   * `policies`: the stored record parsed, `{}` for a missing or empty
   * cookie. It throws URIError exactly when reading the cookie does, and
   * SyntaxError otherwise.
   */
  function ReadPolicies(cfg: Config, jar: Jar): (r: Outcome<Value>)
    ensures r == Throw(URIError) <==> Get(jar, cfg.policiesKey).Throw?
    ensures r.Throw? ==> r.error == URIError || r.error == SyntaxError
  {
    match Get(jar, cfg.policiesKey)
    case Throw(e) => Throw(e)
    case Return(r) =>
      var text := if r.None? || r.value == "" then "{}" else r.value;
      match Parse(text)
      case None => Throw(SyntaxError)
      case Some(v) => Return(v)
  }

  /**
   * `isPolicyAccepted(p)`: it throws where `policies` does, and TypeError
   * exactly when the stored record is `null`.
   */
  function IsPolicyAccepted(cfg: Config, jar: Jar, p: string): (r: Outcome<Option<bool>>)
    ensures r.Throw? <==> ReadPolicies(cfg, jar).Throw? || ReadPolicies(cfg, jar) == Return(Null)
    ensures r == Throw(TypeError) <==> ReadPolicies(cfg, jar) == Return(Null)
  {
    match ReadPolicies(cfg, jar)
    case Throw(e) => Throw(e)
    case Return(v) => Acceptance(v, p)
  }

  // =============================================================== policies

  /** `savePolicies(record)`. */
  function SavePolicies(cfg: Config, w: World, record: Obj<Value>): World {
    Set(cfg, w, cfg.policiesKey, Stringify(record), NoOptions)
  }

  function Announce(cfg: Config, w: World, event: string, data: Payload): World {
    w.(delivered := w.delivered + Fire(cfg.events, event, data))
  }

  /** `{ [p]: b }`. */
  function Change(p: string, b: bool): Payload {
    RecordData([(p, Bool(b))])
  }

  /** `setPolicy(p, b)`: nothing for `essential`. */
  function SetPolicy(cfg: Config, w: World, p: string, b: bool): Outcome<World> {
    if p == Essential then Return(w)
    else match ReadPolicies(cfg, w.jar)
      case Throw(e) => Throw(e)
      case Return(v) =>
        Return(Announce(cfg, SavePolicies(cfg, w, SetPolicyRecord(v, p, b)), "changePolicy", Change(p, b)))
  }

  /** `acceptPolicy(p)` and `rejectPolicy(p)`. */
  function DecidePolicy(cfg: Config, w: World, p: string, b: bool): Outcome<World> {
    match SetPolicy(cfg, w, p, b)
    case Throw(e) => Throw(e)
    case Return(w1) =>
      var event := if b then "acceptPolicy" else "rejectPolicy";
      Return(Announce(cfg, Announce(cfg, w1, event, PolicyData(p)), "changePolicy", Change(p, b)))
  }

  /** `acceptAllPolicies()` and `rejectAllPolicies()`. */
  function DecideAll(cfg: Config, w: World, b: bool): Outcome<World> {
    match ReadPolicies(cfg, w.jar)
    case Throw(e) => Throw(e)
    case Return(v) =>
      match OwnKeys(v)
      case Throw(e) => Throw(e)
      case Return(keys) =>
        var record := if b then AcceptAllRecord(keys) else RejectAllRecord(keys);
        var event := if b then "acceptAllPolicies" else "rejectAllPolicies";
        Return(Announce(cfg, Announce(cfg, SavePolicies(cfg, w, record), event, NoData),
                        "changePolicy", RecordData(record)))
  }

  /** `init()`. */
  function Init(cfg: Config, w: World): Outcome<World> {
    match ReadPolicies(cfg, w.jar)
    case Throw(e) => Throw(e)
    case Return(v) => Return(SavePolicies(cfg, w, InitRecord(cfg.extraPolicies, v)))
  }
}
