/**
 * The `Cookies` class itself: one instance per page (the `_instance`
 * singleton), holding the extra policies, the domain, the secure flag, the
 * listener table and the name of the policies cookie. Each method is proved
 * to leave the page exactly as the matching function of `CookieStore` says.
 */
module Cookies {
  import opened Wrappers
  import opened JsObject
  import Uri
  import opened Json
  import opened CookieHeader
  import opened Policies
  import CookieStore

  /** Whether a method that reports `thrown` and left `after` behind did what `r` describes. */
  predicate Follows(r: Outcome<CookieStore.World>, thrown: Option<JsError>,
                    before: CookieStore.World, after: CookieStore.World) {
    match r
    case Throw(e) => thrown == Some(e) && after == before
    case Return(w) => thrown == None && after == w
  }

  /** The options of the constructor; a missing one takes its default. */
  datatype Options = Options(domain: Option<string>, secure: Option<bool>, policiesKey: Option<string>)

  /**
   * The page the class works against: its cookie jar, every string
   * assigned to `document.cookie`, every listener call made, and the
   * static `Cookies._instance`.
   */
  class Page {
    var jar: Jar
    var written: seq<string>
    var delivered: seq<CookieStore.Delivery>
    var instance: Cookies?

    /** A page with no cookies and no instance yet. */
    constructor ()
      ensures jar == [] && written == [] && delivered == [] && instance == null
    {
      jar := [];
      written := [];
      delivered := [];
      instance := null;
    }

    function State(): CookieStore.World
      reads this
    {
      CookieStore.World(jar, written, delivered)
    }

    /**
     * `document.cookie = cookie`: the string is recorded and the jar takes
     * the pair at its head, `name=value`, or drops `name` when max-age is
     * not positive.
     */
    method Assign(cookie: string, name: string, value: string, maxAge: int)
      modifies this`jar, this`written
      ensures jar == Store(old(jar), name, value, maxAge)
      ensures written == old(written) + [cookie]
    {
      jar := Store(jar, name, value, maxAge);
      written := written + [cookie];
    }
  }

  /**
   * `new Cookies(extraPolicies, options)`: the current instance when its
   * policies key is the one asked for, and nothing else happens; otherwise
   * a new instance, which becomes the current one before `init` runs (so
   * it stays current even when `init` throws and `new` hands nothing out).
   */
  method New(page: Page, extraPolicies: seq<string>, options: Options) returns (c: Cookies, thrown: Option<JsError>)
    modifies page
    ensures var key := options.policiesKey.GetOr("cookies_policy");
      if old(page.instance) != null && old(page.instance.policiesKey) == key then
        c == old(page.instance) && thrown == None && unchanged(page)
      else
        fresh(c) && c.page == page && page.instance == c
        && c.extraPolicies == extraPolicies && c.domain == options.domain.GetOr("")
        && c.secure == options.secure.GetOr(true) && c.policiesKey == key && c.events == map[]
        && Follows(CookieStore.Init(c.Config(), old(page.State())), thrown, old(page.State()), page.State())
  {
    var key := options.policiesKey.GetOr("cookies_policy");
    if page.instance != null && page.instance.policiesKey == key {
      return page.instance, None;
    }
    c := new Cookies(page, extraPolicies, options.domain.GetOr(""), options.secure.GetOr(true), key);
    page.instance := c;
    thrown := c.Init();
  }

  /** The `forEach` of the `all` getter: each segment's name takes its value, a later one overwriting. */
  method ReadSegments(segs: seq<string>) returns (deserialised: Obj<Option<string>>)
    ensures deserialised == Fold([], segs)
  {
    deserialised := [];
    var i := 0;
    while i < |segs|
      invariant 0 <= i <= |segs|
      invariant deserialised == Fold([], segs[..i])
    {
      // `cookie.trim().split("=")`: the name and, when there is one, the value.
      var entry := Entry(segs[i]);
      ghost var before := deserialised;
      // An assignment to `__proto__` of a string is ignored.
      if Admissible(entry.0) {
        deserialised := Put(deserialised, entry.0, entry.1);
      }
      ReadStep(segs, i, before, entry, deserialised);
      i := i + 1;
    }
    assert segs[..i] == segs;
  }

  lemma ReadStep(segs: seq<string>, i: nat, before: Obj<Option<string>>, entry: (string, Option<string>),
                 after: Obj<Option<string>>)
    requires i < |segs| && before == Fold([], segs[..i]) && entry == Entry(segs[i])
    requires after == Admit(before, entry)
    ensures after == Fold([], segs[..i + 1])
  {
    FoldStep([], segs, i);
  }

  lemma DeleteEachStep(cfg: CookieStore.Config, w: CookieStore.World, names: seq<string>, path: string,
                       domain: Option<string>, i: nat)
    requires i < |names|
    ensures CookieStore.DeleteEach(cfg, w, names[..i + 1], path, domain)
      == CookieStore.Delete(cfg, CookieStore.DeleteEach(cfg, w, names[..i], path, domain), names[i], path, domain)
  {
    assert names[..i + 1][..i] == names[..i];
  }

  lemma DeleteAllReturns(cfg: CookieStore.Config, w: CookieStore.World, path: string, domain: Option<string>,
                         names: seq<string>, deleted: CookieStore.World)
    requires names == Keys(CookieHeader.All(Header(w.jar)))
    requires deleted == CookieStore.DeleteEach(cfg, w, names[..|names|], path, domain)
    ensures CookieStore.DeleteAll(cfg, w, path, domain) == deleted.(delivered := deleted.delivered
      + CookieStore.Fire(cfg.events, "deleteAllCookies", CookieStore.DeleteAllData(path, domain)))
  {
    assert names[..|names|] == names;
  }

  lemma DecideAllReturns(cfg: CookieStore.Config, w: CookieStore.World, b: bool, v: Value, keys: seq<string>)
    requires CookieStore.ReadPolicies(cfg, w.jar) == Return(v) && OwnKeys(v) == Return(keys)
    ensures var record := if b then AcceptAllRecord(keys) else RejectAllRecord(keys);
      var event := if b then "acceptAllPolicies" else "rejectAllPolicies";
      CookieStore.DecideAll(cfg, w, b) == Return(CookieStore.Announce(cfg,
        CookieStore.Announce(cfg, CookieStore.SavePolicies(cfg, w, record), event, CookieStore.NoData),
        "changePolicy", CookieStore.RecordData(record)))
  {
  }

  class Cookies {
    const page: Page
    var extraPolicies: seq<string>
    var domain: string
    var secure: bool
    var events: CookieStore.Listeners
    var policiesKey: string

    /** The field assignments of the constructor, with an empty listener table. */
    constructor (page: Page, extraPolicies: seq<string>, domain: string, secure: bool, policiesKey: string)
      ensures this.page == page && this.extraPolicies == extraPolicies && this.domain == domain
      ensures this.secure == secure && this.policiesKey == policiesKey && events == map[]
    {
      this.page := page;
      this.extraPolicies := extraPolicies;
      this.domain := domain;
      this.secure := secure;
      this.events := map[];
      this.policiesKey := policiesKey;
    }

    function Config(): CookieStore.Config
      reads this
    {
      CookieStore.Config(extraPolicies, domain, secure, policiesKey, events)
    }

    /** `init()`: saves the defaults with the stored record over them and `essential` accepted. */
    method Init() returns (thrown: Option<JsError>)
      modifies page`jar, page`written, page`delivered
      ensures Follows(CookieStore.Init(Config(), old(page.State())), thrown, old(page.State()), page.State())
    {
      var current := CookieStore.ReadPolicies(Config(), page.jar);
      if current.Throw? {
        return Some(current.error);
      }
      SavePolicies(InitRecord(extraPolicies, current.value));
      thrown := None;
    }

    /** `destroy()`: clears the current instance, then fires destroy. */
    method Destroy()
      modifies page`instance, page`delivered
      ensures page.instance == null
      ensures page.jar == old(page.jar) && page.written == old(page.written)
      ensures page.delivered == old(page.delivered) + CookieStore.Fire(events, "destroy", CookieStore.NoData)
    {
      page.instance := null;
      Trigger("destroy", CookieStore.NoData);
    }

    /** The `all` getter: the non-empty pieces of `document.cookie` between semicolons, read in turn. */
    method All() returns (deserialised: Obj<Option<string>>)
      ensures deserialised == CookieHeader.All(Header(page.jar))
    {
      deserialised := ReadSegments(Segments(Header(page.jar)));
    }

    /** `set(key, value, options)`. */
    method Set(key: string, value: string, options: CookieStore.SetOptions)
      modifies page`jar, page`written, page`delivered
      ensures page.State() == CookieStore.Set(Config(), old(page.State()), key, value, options)
    {
      var maxAge := options.maxAge.GetOr(CookieStore.DefaultMaxAge);
      var path := options.path.GetOr("/");
      var sameSite := options.sameSite.GetOr("Lax");
      var domain := options.domain.GetOr(this.domain);
      var secure := options.secure.GetOr(this.secure);
      if key == "" {
        return;
      }
      var cookie := CookieStore.CookieString(key, value, domain, sameSite, path, maxAge, secure);
      page.Assign(cookie, Uri.Encode(key), Uri.Encode(value), maxAge);
      Trigger("setCookie", CookieStore.SetCookieData(key, value, maxAge, path, sameSite, domain, secure, cookie));
    }

    /** `delete(key, path, domain)`; the path defaults to `/`. */
    method Delete(key: string, path: Option<string>, domain: Option<string>)
      modifies page`jar, page`written, page`delivered
      ensures page.State() == CookieStore.Delete(Config(), old(page.State()), key, path.GetOr("/"), domain)
    {
      var p := path.GetOr("/");
      var given := CookieStore.DomainOption(domain);
      Set(key, "", CookieStore.SetOptions(Some(-1), Some(p), None, given, None));
      Trigger("deleteCookie", CookieStore.DeleteCookieData(key, -1, p, given));
    }

    /** `deleteAll(path, domain)`: deletes each name `all` lists, then fires deleteAllCookies. */
    method DeleteAll(path: Option<string>, domain: Option<string>)
      modifies page`jar, page`written, page`delivered
      ensures page.State() == CookieStore.DeleteAll(Config(), old(page.State()), path.GetOr("/"), domain)
    {
      var p := path.GetOr("/");
      ghost var cfg := Config();
      ghost var start := page.State();
      var all := All();
      var names := Keys(all);
      var i := 0;
      while i < |names|
        invariant 0 <= i <= |names|
        invariant page.State() == CookieStore.DeleteEach(cfg, start, names[..i], p, domain)
      {
        Delete(names[i], Some(p), domain);
        DeleteEachStep(cfg, start, names, p, domain, i);
        i := i + 1;
      }
      ghost var deleted := page.State();
      Trigger("deleteAllCookies", CookieStore.DeleteAllData(p, domain));
      DeleteAllReturns(cfg, start, p, domain, names, deleted);
    }

    /** `savePolicies(record)`. */
    method SavePolicies(record: Obj<Value>)
      modifies page`jar, page`written, page`delivered
      ensures page.State() == CookieStore.SavePolicies(Config(), old(page.State()), record)
    {
      Set(policiesKey, Stringify(record), CookieStore.NoOptions);
    }

    /** `setPolicy(policy, accepted)`. */
    method SetPolicy(policy: string, accepted: bool) returns (thrown: Option<JsError>)
      modifies page`jar, page`written, page`delivered
      ensures Follows(CookieStore.SetPolicy(Config(), old(page.State()), policy, accepted),
                      thrown, old(page.State()), page.State())
    {
      if policy == Essential {
        return None;
      }
      var current := CookieStore.ReadPolicies(Config(), page.jar);
      if current.Throw? {
        return Some(current.error);
      }
      SavePolicies(SetPolicyRecord(current.value, policy, accepted));
      Trigger("changePolicy", CookieStore.Change(policy, accepted));
      thrown := None;
    }

    /** `acceptPolicy(policy)` (`accepted` true) and `rejectPolicy(policy)` (false). */
    method DecidePolicy(policy: string, accepted: bool) returns (thrown: Option<JsError>)
      modifies page`jar, page`written, page`delivered
      ensures Follows(CookieStore.DecidePolicy(Config(), old(page.State()), policy, accepted),
                      thrown, old(page.State()), page.State())
    {
      thrown := SetPolicy(policy, accepted);
      if thrown.Some? {
        return;
      }
      Trigger(if accepted then "acceptPolicy" else "rejectPolicy", CookieStore.PolicyData(policy));
      Trigger("changePolicy", CookieStore.Change(policy, accepted));
    }

    /** `acceptAllPolicies()` (`accepted` true) and `rejectAllPolicies()` (false). */
    method DecideAll(accepted: bool) returns (thrown: Option<JsError>)
      modifies page`jar, page`written, page`delivered
      ensures Follows(CookieStore.DecideAll(Config(), old(page.State()), accepted),
                      thrown, old(page.State()), page.State())
    {
      var current := CookieStore.ReadPolicies(Config(), page.jar);
      if current.Throw? {
        return Some(current.error);
      }
      var keys := OwnKeys(current.value);
      if keys.Throw? {
        return Some(keys.error);
      }
      var record := if accepted then AcceptAllRecord(keys.value) else RejectAllRecord(keys.value);
      var event := if accepted then "acceptAllPolicies" else "rejectAllPolicies";
      ghost var start := page.State();
      SavePolicies(record);
      ghost var saved := page.State();
      Trigger(event, CookieStore.NoData);
      assert page.State() == CookieStore.Announce(Config(), saved, event, CookieStore.NoData);
      Trigger("changePolicy", CookieStore.RecordData(record));
      DecideAllReturns(Config(), start, accepted, current.value, keys.value);
      thrown := None;
    }

    /** `on(event, callback)`. */
    method On(event: string, callback: CookieStore.Callback)
      modifies this`events
      ensures events == CookieStore.Register(old(events), event, callback)
    {
      // `events.__proto__ = ...` replaces the prototype, not an own property.
      if event == "__proto__" {
        return;
      }
      if event !in events {
        events := events[event := []];
      }
      events := events[event := events[event] + [callback]];
    }

    /** `trigger(event, data)`: each listener of the event in registration order. */
    method Trigger(event: string, data: CookieStore.Payload)
      modifies page`delivered
      ensures page.delivered == old(page.delivered) + CookieStore.Fire(events, event, data)
    {
      if event in events {
        var listeners := events[event];
        var i := 0;
        while i < |listeners|
          invariant 0 <= i <= |listeners|
          invariant page.delivered == old(page.delivered) + CookieStore.Fire(events, event, data)[..i]
        {
          page.delivered := page.delivered + [CookieStore.Delivery(event, listeners[i], data)];
          i := i + 1;
        }
      }
    }
  }
}
