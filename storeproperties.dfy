/**
 * Properties of the cookie store's operations: the cookie strings `set`
 * writes, what reading after a write gives back, the consent record each
 * policy operation leaves behind, and the order in which listeners hear of it.
 */
module StoreProperties {
  import opened Wrappers
  import opened JsObject
  import opened JsString
  import Uri
  import opened Json
  import opened CookieHeader
  import opened Policies
  import opened CookieStore
  import opened Seqs

  // ====================================================== the cookie string

  lemma IntToStringChars(i: int)
    ensures ';' !in IntToString(i)
  {
    var r := IntToString(i);
    if i < 0 {
      var n := NatToString(-i);
      forall j | 0 <= j < |r| ensures r[j] != ';' {
        if j > 0 { assert r[j] == n[j - 1]; }
      }
    }
  }

  /** The attributes after the name-value pair, as the browser splits them. */
  function Attributes(domain: string, sameSite: string, path: string, maxAge: int, secure: bool): seq<string> {
    (if domain != "" then [" domain=" + domain] else [])
    + [" samesite=" + sameSite, " path=" + path, " max-age=" + IntToString(maxAge)]
    + (if secure then [" secure"] else [])
  }

  lemma SplitTail(maxAge: int, secure: bool)
    ensures Split(" max-age=" + IntToString(maxAge) + (if secure then "; secure" else ""), ';')
      == [" max-age=" + IntToString(maxAge)] + (if secure then [" secure"] else [])
  {
    var m := " max-age=" + IntToString(maxAge);
    IntToStringChars(maxAge);
    assert ';' !in m;
    if secure {
      assert m + "; secure" == m + ";" + " secure";
      SplitAtFirst(m, ';', " secure");
      SplitNoSeparator(" secure", ';');
    } else {
      assert m + "" == m;
      SplitNoSeparator(m, ';');
    }
  }

  /** `x + ";" + y` written with the separator inside a longer literal. */
  lemma SemicolonText(x: string, lit: string, y: string)
    requires lit != [] && lit[0] == ';'
    ensures x + lit + y == x + ";" + (lit[1..] + y)
  {
    assert lit == ";" + lit[1..];
    Assoc(x, ";", lit[1..]);
    Assoc(x + ";", lit[1..], y);
  }

  lemma TextAfterDomain(a: string, path: string, n: string, sec: string)
    ensures a + "; path=" + path + "; max-age=" + n + sec
      == a + ";" + ((" path=" + path) + ";" + (" max-age=" + n + sec))
  {
    calc {
      a + "; path=" + path + "; max-age=" + n + sec;
      { Assoc(a + "; path=" + path + "; max-age=", n, sec); }
      a + "; path=" + path + "; max-age=" + (n + sec);
      { Assoc(a + "; path=" + path, "; max-age=", n + sec); }
      a + "; path=" + path + ("; max-age=" + (n + sec));
      { SemicolonText(a + "; path=" + path, "; max-age=", n + sec); }
      a + "; path=" + path + ";" + (" max-age=" + (n + sec));
      { Assoc(" max-age=", n, sec); }
      a + "; path=" + path + ";" + (" max-age=" + n + sec);
      { Assoc(a, "; path=", path); }
      a + ("; path=" + path) + ";" + (" max-age=" + n + sec);
      { SemicolonText(a, "; path=", path); }
      a + ";" + (" path=" + path) + ";" + (" max-age=" + n + sec);
      { Assoc(a + ";" + (" path=" + path), ";", " max-age=" + n + sec);
        Assoc(a + ";", " path=" + path, ";" + (" max-age=" + n + sec));
        Assoc(a, ";", (" path=" + path) + (";" + (" max-age=" + n + sec))); }
      a + ";" + ((" path=" + path) + ";" + (" max-age=" + n + sec));
    }
  }

  lemma SplitTwo(a: string, b: string, t: string)
    requires ';' !in a && ';' !in b
    ensures Split(a + ";" + (b + ";" + t), ';') == [a, b] + Split(t, ';')
  {
    SplitAtFirst(a, ';', b + ";" + t);
    SplitAtFirst(b, ';', t);
  }

  lemma SplitAfterDomain(sameSite: string, path: string, maxAge: int, secure: bool)
    requires ';' !in sameSite && ';' !in path
    ensures Split(" samesite=" + sameSite + "; path=" + path + "; max-age=" + IntToString(maxAge)
                  + (if secure then "; secure" else ""), ';')
      == [" samesite=" + sameSite, " path=" + path, " max-age=" + IntToString(maxAge)] + (if secure then [" secure"] else [])
  {
    var a := " samesite=" + sameSite;
    var b := " path=" + path;
    var n := IntToString(maxAge);
    var sec := if secure then "; secure" else "";
    assert ';' !in a && ';' !in b;
    TextAfterDomain(a, path, n, sec);
    SplitTwo(a, b, " max-age=" + n + sec);
    SplitTail(maxAge, secure);
  }

  /**
   * Split at its semicolons, the cookie string is the encoded name-value
   * pair, then ` domain=…` only for a non-empty domain, then the samesite,
   * path and max-age attributes, then ` secure` only when secure is set.
   */
  lemma CookieStringAttributes(key: string, value: string, domain: string, sameSite: string,
                               path: string, maxAge: int, secure: bool)
    requires ';' !in domain && ';' !in sameSite && ';' !in path
    ensures Split(CookieString(key, value, domain, sameSite, path, maxAge, secure), ';')
      == [Uri.Encode(key) + "=" + Uri.Encode(value)] + Attributes(domain, sameSite, path, maxAge, secure)
  {
    var p := Uri.Encode(key) + "=" + Uri.Encode(value);
    var rest := OtherAttributes(sameSite, path, maxAge, secure);
    var dom := if domain != "" then [" domain=" + domain] else [];
    var tail := [" samesite=" + sameSite, " path=" + path, " max-age=" + IntToString(maxAge)]
      + (if secure then [" secure"] else []);
    assert Split(rest, ';') == tail by { SplitAfterDomain(sameSite, path, maxAge, secure); }
    var cs := CookieString(key, value, domain, sameSite, path, maxAge, secure);
    assert cs == p + ";" + DomainAttribute(domain) + rest;
    assert ';' !in p by { PairNoSemicolon(Uri.Encode(key), Uri.Encode(value)); }
    assert Split(cs, ';') == [p] + dom + Split(rest, ';') by { SplitCookie(p, domain, rest); }
    assert Attributes(domain, sameSite, path, maxAge, secure) == dom + tail;
    Assoc([p], dom, tail);
  }

  lemma SplitCookie(p: string, domain: string, rest: string)
    requires ';' !in p && ';' !in domain
    ensures Split(p + ";" + DomainAttribute(domain) + rest, ';')
      == [p] + (if domain != "" then [" domain=" + domain] else []) + Split(rest, ';')
  {
    Assoc(p + ";", DomainAttribute(domain), rest);
    Assoc(p, ";", DomainAttribute(domain) + rest);
    if domain != "" {
      var dm := " domain=" + domain;
      assert ';' !in dm;
      Assoc(dm, ";", rest);
      SplitAtFirst(p, ';', dm + ";" + rest);
      SplitAtFirst(dm, ';', rest);
    } else {
      assert DomainAttribute(domain) + rest == rest;
      SplitAtFirst(p, ';', rest);
    }
  }

  lemma PairNoSemicolon(name: string, value: string)
    requires Uri.AllUriSafe(name) && Uri.AllUriSafe(value)
    ensures ';' !in name + "=" + value
  {
    UriSafeNoSeparators(name);
    UriSafeNoSeparators(value);
  }

  /** The cookie string ends in `; secure` exactly when the secure flag is set. */
  lemma CookieStringSecure(key: string, value: string, domain: string, sameSite: string,
                           path: string, maxAge: int, secure: bool)
    ensures var cs := CookieString(key, value, domain, sameSite, path, maxAge, secure);
      (|cs| >= 8 && cs[|cs| - 8..] == "; secure") <==> secure
  {
    var cs := CookieString(key, value, domain, sameSite, path, maxAge, secure);
    var head := Uri.Encode(key) + "=" + Uri.Encode(value) + ";" + DomainAttribute(domain);
    var n := IntToString(maxAge);
    var mid := " samesite=" + sameSite + "; path=" + path + "; max-age=" + n;
    var tail := if secure then "; secure" else "";
    assert cs == head + (mid + tail);
    Assoc(head, mid, tail);
    if secure {
      assert cs[|cs| - 8..] == tail;
    } else {
      assert cs == head + mid;
      assert cs[|cs| - 1] == n[|n| - 1];
      if |cs| >= 8 {
        assert cs[|cs| - 8..][7] == cs[|cs| - 1];
      }
    }
  }

  /**
   * The name-value pair at the head of the cookie string is what the
   * browser keeps: the encoded key with the encoded value.
   */
  lemma CookieStringPair(key: string, value: string, domain: string, sameSite: string,
                         path: string, maxAge: int, secure: bool)
    requires key != ""
    requires ';' !in domain && ';' !in sameSite && ';' !in path
    ensures Entry(Split(CookieString(key, value, domain, sameSite, path, maxAge, secure), ';')[0])
      == (Uri.Encode(key), Some(Uri.Encode(value)))
  {
    CookieStringAttributes(key, value, domain, sameSite, path, maxAge, secure);
    Uri.EncodeEmpty(key);
    PairShape(Cookie(Uri.Encode(key), Uri.Encode(value)));
  }

  // ======================================================== set, get, delete

  /** A key `get` reads back under the name `set` wrote: non-empty, left alone by encodeURIComponent, not `__proto__`. */
  predicate PlainKey(key: string) {
    key != "" && key != "__proto__" && Uri.AllUnreserved(key)
  }

  /** The default lifetime is one year, written as `max-age=31536000`. */
  lemma DefaultMaxAgeText()
    ensures DefaultMaxAge == 31536000 && IntToString(DefaultMaxAge) == "31536000"
  {
    // one digit per unfolding of NatToString
    assert NatToString(3) == "3";
    assert NatToString(31) == "31";
    assert NatToString(315) == "315";
    assert NatToString(3153) == "3153";
    assert NatToString(31536) == "31536";
    assert NatToString(315360) == "315360";
    assert NatToString(3153600) == "3153600";
    assert NatToString(31536000) == "31536000";
  }

  /**
   * `set(key, value)` with no options writes a cookie string with the
   * default lifetime for path `/`, samesite Lax, and the instance's domain
   * and secure flag.
   */
  lemma SetDefaults(cfg: Config, w: World, key: string, value: string)
    requires key != "" && ';' !in cfg.domain
    ensures Set(cfg, w, key, value, NoOptions).written ==
      w.written + [CookieString(key, value, cfg.domain, "Lax", "/", DefaultMaxAge, cfg.secure)]
    ensures Split(Set(cfg, w, key, value, NoOptions).written[|w.written|], ';') ==
      [Uri.Encode(key) + "=" + Uri.Encode(value)] + Attributes(cfg.domain, "Lax", "/", DefaultMaxAge, cfg.secure)
  {
    CookieStringAttributes(key, value, cfg.domain, "Lax", "/", DefaultMaxAge, cfg.secure);
  }

  /** `set` with the empty key does nothing at all. */
  lemma SetEmptyKey(cfg: Config, w: World, value: string, opts: SetOptions)
    ensures Set(cfg, w, "", value, opts) == w
  {
  }

  /**
   * After `set(key, value, opts)`, `get(key)` gives the value back, or null
   * when the cookie was written already expired; every other key reads as
   * before.
   */
  lemma GetAfterSet(cfg: Config, w: World, key: string, value: string, opts: SetOptions, k: string)
    requires CookieHeader.WellFormed(w.jar) && PlainKey(key)
    ensures CookieHeader.WellFormed(Set(cfg, w, key, value, opts).jar)
    ensures CookieStore.Get(Set(cfg, w, key, value, opts).jar, k) ==
      if k != key then CookieStore.Get(w.jar, k)
      else if opts.maxAge.GetOr(DefaultMaxAge) <= 0 then Return(None)
      else Return(Some(value))
  {
    var maxAge := opts.maxAge.GetOr(DefaultMaxAge);
    Uri.EncodeUnreserved(key);
    var jar' := Store(w.jar, key, Uri.Encode(value), maxAge);
    assert Set(cfg, w, key, value, opts).jar == jar';
    StoreWellFormed(w.jar, key, Uri.Encode(value), maxAge);
    AllOfRender(jar', k);
    AllOfRender(w.jar, k);
    LookupStore(w.jar, key, Uri.Encode(value), maxAge, k);
    if k == key && maxAge > 0 {
      Uri.DecodeEncode(value);
    }
  }

  /** `hasValue` after `set`: the value just written compares equal, and a missing cookie equals null and undefined. */
  lemma HasValueAfterSet(cfg: Config, w: World, key: string, value: string, opts: SetOptions)
    requires CookieHeader.WellFormed(w.jar) && PlainKey(key)
    ensures var jar' := Set(cfg, w, key, value, opts).jar;
      if opts.maxAge.GetOr(DefaultMaxAge) > 0 then HasValue(jar', key, Some(value)) == Return(true)
      else HasValue(jar', key, None) == Return(true) && !Exists(jar', key)
  {
    GetAfterSet(cfg, w, key, value, opts, key);
  }

  /** The options `delete` passes to `set`. */
  function ExpiryOptions(path: string, domain: Option<string>): SetOptions {
    SetOptions(Some(-1), Some(path), None, DomainOption(domain), None)
  }

  /** After `delete(key)`, `get(key)` is null and every other key reads as before. */
  lemma GetAfterDelete(cfg: Config, w: World, key: string, path: string, domain: Option<string>, k: string)
    requires CookieHeader.WellFormed(w.jar) && PlainKey(key)
    ensures CookieHeader.WellFormed(Delete(cfg, w, key, path, domain).jar)
    ensures CookieStore.Get(Delete(cfg, w, key, path, domain).jar, k) == if k == key then Return(None) else CookieStore.Get(w.jar, k)
  {
    GetAfterSet(cfg, w, key, "", ExpiryOptions(path, domain), k);
  }

  /**
   * `set` stores the encoded key, but `get` looks the key up as given: after
   * `set(key, ...)` with a key that needs escaping, `get(key)` reads what it
   * read before.
   */
  lemma GetAfterSetEscapedKey(cfg: Config, w: World, key: string, value: string, opts: SetOptions)
    requires CookieHeader.WellFormed(w.jar) && !Uri.AllUnreserved(key)
    ensures CookieStore.Get(Set(cfg, w, key, value, opts).jar, key) == CookieStore.Get(w.jar, key)
  {
    var maxAge := opts.maxAge.GetOr(DefaultMaxAge);
    var name := Uri.Encode(key);
    Uri.EncodeChanges(key);
    Uri.EncodeEmpty(key);
    var jar' := Store(w.jar, name, Uri.Encode(value), maxAge);
    assert Set(cfg, w, key, value, opts).jar == jar';
    StoreWellFormed(w.jar, name, Uri.Encode(value), maxAge);
    AllOfRender(jar', key);
    AllOfRender(w.jar, key);
    LookupStore(w.jar, name, Uri.Encode(value), maxAge, key);
  }

  /** `set("a b", "v")` on an empty jar, then `get("a b")`: null. */
  lemma GetAfterSetSpacedKey(cfg: Config)
    ensures CookieStore.Get(Set(cfg, World([], [], []), "a b", "v", NoOptions).jar, "a b") == Return(None)
  {
    assert !Uri.Unreserved("a b"[1]);
    GetAfterSetEscapedKey(cfg, World([], [], []), "a b", "v", NoOptions);
  }

  /**
   * A key whose last segment in `document.cookie` has no `=` reads as the
   * text "undefined".
   */
  lemma GetBareName(jar: Jar, k: string, i: nat)
    requires Admissible(k) && '=' !in k
    requires i < |Segments(Header(jar))| && Trim(Segments(Header(jar))[i]) == k
    requires forall j :: i < j < |Segments(Header(jar))| ==> Entry(Segments(Header(jar))[j]).0 != k
    ensures CookieStore.Get(jar, k) == Return(Some("undefined"))
  {
    EntryWithoutEquals(Segments(Header(jar))[i]);
    AllLastWins(Header(jar), k, i);
    DecodeUndefined();
  }

  lemma DecodeUndefined()
    ensures Uri.Decode("undefined") == Some("undefined")
  {
    Uri.DecodeUnreserved("undefined");
  }

  /** The already expired empty cookie `delete(key, path, domain)` writes. */
  function ExpiredCookie(cfg: Config, key: string, path: string, domain: Option<string>): string {
    var dom := if domain.Some? && domain.value != "" then domain.value else cfg.domain;
    CookieString(key, "", dom, "Lax", path, -1, cfg.secure)
  }

  /** The cookie string deleting `key` writes, if any. */
  function ExpiredCookieOf(cfg: Config, key: string, path: string, domain: Option<string>): seq<string> {
    if key != "" then [ExpiredCookie(cfg, key, path, domain)] else []
  }

  /** What one `delete(key, path, domain)` delivers: setCookie for a non-empty key, then deleteCookie. */
  function DeleteEvents(cfg: Config, key: string, path: string, domain: Option<string>): seq<Delivery> {
    var dom := if domain.Some? && domain.value != "" then domain.value else cfg.domain;
    (if key != "" then
       Fire(cfg.events, "setCookie",
            SetCookieData(key, "", -1, path, "Lax", dom, cfg.secure, ExpiredCookie(cfg, key, path, domain)))
     else [])
    + Fire(cfg.events, "deleteCookie", DeleteCookieData(key, -1, path, DomainOption(domain)))
  }

  /**
   * `delete(key, path, domain)` writes an already expired empty cookie,
   * for the instance's domain when the domain given is null or empty, and
   * then fires deleteCookie, which fires even for the empty key.
   */
  lemma DeleteWrites(cfg: Config, w: World, key: string, path: string, domain: Option<string>)
    ensures var w' := Delete(cfg, w, key, path, domain);
      w'.written == w.written + ExpiredCookieOf(cfg, key, path, domain)
      && w'.delivered == w.delivered + DeleteEvents(cfg, key, path, domain)
  {
    var d := DomainOption(domain);
    var w1 := Set(cfg, w, key, "", SetOptions(Some(-1), Some(path), None, d, None));
    var deleted := Fire(cfg.events, "deleteCookie", DeleteCookieData(key, -1, path, d));
    if key != "" {
      var dom := if domain.Some? && domain.value != "" then domain.value else cfg.domain;
      var expire := Fire(cfg.events, "setCookie",
                      SetCookieData(key, "", -1, path, "Lax", dom, cfg.secure, ExpiredCookie(cfg, key, path, domain)));
      assert w1.delivered == w.delivered + expire;
      Assoc(w.delivered, expire, deleted);
    }
  }

  /** `delete(key)` takes out the cookie named by the key's encoding; the empty key touches nothing. */
  lemma DeleteJar(cfg: Config, w: World, key: string, path: string, domain: Option<string>)
    ensures Delete(cfg, w, key, path, domain).jar == if key == "" then w.jar else Remove(w.jar, Uri.Encode(key))
  {
  }

  /** Some non-empty key among `keys` encodes to `n`. */
  predicate Deletes(keys: seq<string>, n: string) {
    true in Hits(keys, n)
  }

  /** For each of `keys`, whether deleting it removes the cookie named `n`. */
  function Hits(keys: seq<string>, n: string): (r: seq<bool>)
    ensures |r| == |keys|
  {
    seq(|keys|, i requires 0 <= i < |keys| => DeletesName(keys[i], n))
  }

  /** `delete(k)` removes the cookie named `n`. */
  predicate DeletesName(k: string, n: string) {
    k != "" && Uri.Encode(k) == n
  }

  lemma DeletesSnoc(keys: seq<string>, n: string)
    requires keys != []
    ensures Deletes(keys, n) <==> Deletes(keys[..|keys| - 1], n) || DeletesName(keys[|keys| - 1], n)
  {
    var init := keys[..|keys| - 1];
    assert Hits(keys, n) == Hits(init, n) + [DeletesName(keys[|keys| - 1], n)];
  }

  /** Deleting `keys` in turn removes exactly the cookies named by their encodings. */
  lemma {:induction false} DeleteEachLookup(cfg: Config, w: World, keys: seq<string>, path: string,
                                            domain: Option<string>, n: string)
    ensures Lookup(DeleteEach(cfg, w, keys, path, domain).jar, n) ==
      if Deletes(keys, n) then None else Lookup(w.jar, n)
    decreases |keys|
  {
    if keys != [] {
      var init := keys[..|keys| - 1];
      var last := keys[|keys| - 1];
      DeleteEachLookup(cfg, w, init, path, domain, n);
      var w1 := DeleteEach(cfg, w, init, path, domain);
      DeleteJar(cfg, w1, last, path, domain);
      LookupRemove(w1.jar, Uri.Encode(last), n);
      DeletesSnoc(keys, n);
    }
  }

  lemma {:induction false} DeleteEachWellFormed(cfg: Config, w: World, keys: seq<string>, path: string,
                                                domain: Option<string>)
    requires CookieHeader.WellFormed(w.jar)
    ensures CookieHeader.WellFormed(DeleteEach(cfg, w, keys, path, domain).jar)
    decreases |keys|
  {
    if keys != [] {
      var init := keys[..|keys| - 1];
      var last := keys[|keys| - 1];
      DeleteEachWellFormed(cfg, w, init, path, domain);
      var w1 := DeleteEach(cfg, w, init, path, domain);
      DeleteJar(cfg, w1, last, path, domain);
      RemoveWellFormed(w1.jar, Uri.Encode(last));
    }
  }

  /** Every name `all` lists belongs to a cookie in the jar. */
  lemma AllNamesInJar(jar: Jar, i: nat)
    requires CookieHeader.WellFormed(jar) && i < |AllNames(jar)|
    ensures exists j :: 0 <= j < |jar| && jar[j].name == AllNames(jar)[i]
  {
    var all := All(Header(jar));
    var k := AllNames(jar)[i];
    assert all[i].0 == k;
    AllOfRender(jar, k);
  }

  /**
   * `deleteAll()` leaves no cookie `exists` can see when every name is
   * unchanged by encodeURIComponent; it also stays well formed.
   */
  lemma DeleteAllClears(cfg: Config, w: World, path: string, domain: Option<string>, k: string)
    requires CookieHeader.WellFormed(w.jar)
    requires forall i :: 0 <= i < |w.jar| ==> Uri.AllUnreserved(w.jar[i].name)
    ensures CookieHeader.WellFormed(DeleteAll(cfg, w, path, domain).jar)
    ensures !Exists(DeleteAll(cfg, w, path, domain).jar, k)
  {
    var keys := AllNames(w.jar);
    var w1 := DeleteEach(cfg, w, keys, path, domain);
    assert DeleteAll(cfg, w, path, domain).jar == w1.jar;
    DeleteEachWellFormed(cfg, w, keys, path, domain);
    assert !Admissible(k) || Lookup(w1.jar, k) == None by {
      DeleteEachLookup(cfg, w, keys, path, domain, k);
      if Admissible(k) && Lookup(w.jar, k).Some? {
        var j :| 0 <= j < |w.jar| && w.jar[j].name == k;
        NameDeleted(w.jar, k);
      }
    }
    AllOfRender(w1.jar, k);
  }

  /** `Object.keys(this.all)` lists an admissible name of the jar, and deleting it by an unreserved name hits it. */
  lemma NameDeleted(jar: Jar, k: string)
    requires CookieHeader.WellFormed(jar)
    requires Admissible(k) && Uri.AllUnreserved(k) && Lookup(jar, k).Some?
    ensures Deletes(AllNames(jar), k)
  {
    var keys := AllNames(jar);
    var j :| 0 <= j < |jar| && jar[j].name == k;
    Uri.EncodeUnreserved(k);
    AllOfRender(jar, k);
    var all := All(Header(jar));
    var i :| 0 <= i < |all| && all[i].0 == k;
    assert keys[i] == k;
    assert Hits(keys, k)[i];
  }


  /**
   * After `deleteAll()`, no key that encoding leaves unchanged exists,
   * whatever other names the page holds.
   */
  lemma DeleteAllRemovesPlainKey(cfg: Config, w: World, path: string, domain: Option<string>, k: string)
    requires CookieHeader.WellFormed(w.jar) && PlainKey(k)
    ensures CookieHeader.WellFormed(DeleteAll(cfg, w, path, domain).jar)
    ensures !Exists(DeleteAll(cfg, w, path, domain).jar, k)
  {
    var keys := AllNames(w.jar);
    var w1 := DeleteEach(cfg, w, keys, path, domain);
    assert DeleteAll(cfg, w, path, domain).jar == w1.jar;
    DeleteEachWellFormed(cfg, w, keys, path, domain);
    assert Lookup(w1.jar, k) == None by {
      DeleteEachLookup(cfg, w, keys, path, domain, k);
      if Lookup(w.jar, k).Some? {
        NameDeleted(w.jar, k);
      }
    }
    AllOfRender(w1.jar, k);
  }

  /** After `deleteAll()`, the policies cookie is gone and `policies` reads `{}`. */
  lemma PoliciesAfterDeleteAll(cfg: Config, w: World, path: string, domain: Option<string>)
    requires CookieHeader.WellFormed(w.jar) && PlainKey(cfg.policiesKey)
    ensures CookieStore.Get(DeleteAll(cfg, w, path, domain).jar, cfg.policiesKey) == Return(None)
    ensures ReadPolicies(cfg, DeleteAll(cfg, w, path, domain).jar) == Return(Object([]))
  {
    DeleteAllRemovesPlainKey(cfg, w, path, domain, cfg.policiesKey);
    PoliciesDefault(cfg, DeleteAll(cfg, w, path, domain).jar);
  }

  /**
   * `deleteAll()` deletes each name `all` lists by its encoding, so a
   * cookie that no listed name encodes to stays.
   */
  lemma DeleteAllKeeps(cfg: Config, w: World, path: string, domain: Option<string>, c: Cookie)
    requires CookieHeader.WellFormed(w.jar) && c in w.jar
    requires forall d :: d in w.jar ==> Uri.Encode(d.name) != c.name
    ensures Lookup(DeleteAll(cfg, w, path, domain).jar, c.name) == Some(c.value)
  {
    var keys := AllNames(w.jar);
    assert !Deletes(keys, c.name) by {
      forall i | 0 <= i < |keys| ensures Uri.Encode(keys[i]) != c.name {
        AllNamesInJar(w.jar, i);
        var j :| 0 <= j < |w.jar| && w.jar[j].name == keys[i];
        assert w.jar[j] in w.jar;
      }
      NoneDeleted(keys, c.name);
    }
    DeleteEachLookup(cfg, w, keys, path, domain, c.name);
    var j :| 0 <= j < |w.jar| && w.jar[j] == c;
    LookupAt(w.jar, j);
  }

  /** No listed name encodes to `n`, so `n` is not deleted. */
  lemma NoneDeleted(keys: seq<string>, n: string)
    requires forall i :: 0 <= i < |keys| ==> Uri.Encode(keys[i]) != n
    ensures !Deletes(keys, n)
  {
    forall i | 0 <= i < |keys| ensures !Hits(keys, n)[i] {
    }
  }

  /**
   * A lone cookie whose name holds `%` survives `deleteAll()`: its name is
   * re-encoded before the delete. With other cookies beside it, it survives
   * unless some listed name encodes to its name (`DeleteAllKeeps`).
   */
  lemma DeleteAllKeepsEscapedName(cfg: Config, name: string, value: string, written: seq<string>,
                                  delivered: seq<Delivery>, path: string, domain: Option<string>)
    requires name != "" && '%' in name && Uri.AllUriSafe(name) && Uri.AllUriSafe(value)
    ensures Lookup(DeleteAll(cfg, World([Cookie(name, value)], written, delivered), path, domain).jar, name)
      == Some(value)
  {
    var c := Cookie(name, value);
    forall d | d in [c] ensures Uri.Encode(d.name) != c.name {
      Uri.EncodeLonger(name);
    }
    DeleteAllKeeps(cfg, World([c], written, delivered), path, domain, c);
  }

  /** The cookie strings written by deleting each of `keys` in order: one per non-empty key. */
  function ExpiredCookies(cfg: Config, keys: seq<string>, path: string, domain: Option<string>): seq<string>
    decreases |keys|
  {
    if keys == [] then []
    else ExpiredCookies(cfg, keys[..|keys| - 1], path, domain) + ExpiredCookieOf(cfg, keys[|keys| - 1], path, domain)
  }

  /** The deliveries of deleting each of `keys` in order; none of them is a deleteAllCookies. */
  function DeletesLog(cfg: Config, keys: seq<string>, path: string, domain: Option<string>): (r: seq<Delivery>)
    ensures forall i :: 0 <= i < |r| ==> r[i].event == "setCookie" || r[i].event == "deleteCookie"
    decreases |keys|
  {
    if keys == [] then []
    else DeletesLog(cfg, keys[..|keys| - 1], path, domain) + DeleteEvents(cfg, keys[|keys| - 1], path, domain)
  }

  /**
   * Deleting each of `keys` writes, in order, one expired cookie per
   * non-empty key and delivers, key by key, setCookie (for a non-empty key)
   * and then deleteCookie.
   */
  lemma {:induction false} DeleteEachLog(cfg: Config, w: World, keys: seq<string>, path: string,
                                         domain: Option<string>)
    ensures DeleteEach(cfg, w, keys, path, domain).written == w.written + ExpiredCookies(cfg, keys, path, domain)
    ensures DeleteEach(cfg, w, keys, path, domain).delivered == w.delivered + DeletesLog(cfg, keys, path, domain)
    decreases |keys|
  {
    if keys != [] {
      var init := keys[..|keys| - 1];
      var last := keys[|keys| - 1];
      DeleteEachLog(cfg, w, init, path, domain);
      var w1 := DeleteEach(cfg, w, init, path, domain);
      DeleteWrites(cfg, w1, last, path, domain);
      Assoc(w.written, ExpiredCookies(cfg, init, path, domain), ExpiredCookieOf(cfg, last, path, domain));
      Assoc(w.delivered, DeletesLog(cfg, init, path, domain), DeleteEvents(cfg, last, path, domain));
    }
  }

  /**
   * `deleteAll()` deletes each name `all` lists, in that order, and only
   * then delivers deleteAllCookies: no delivery before the final ones is a
   * deleteAllCookies.
   */
  lemma DeleteAllLog(cfg: Config, w: World, path: string, domain: Option<string>)
    ensures var log := DeletesLog(cfg, AllNames(w.jar), path, domain);
      DeleteAll(cfg, w, path, domain).written == w.written + ExpiredCookies(cfg, AllNames(w.jar), path, domain)
      && DeleteAll(cfg, w, path, domain).delivered ==
           w.delivered + log + Fire(cfg.events, "deleteAllCookies", DeleteAllData(path, domain))
      && forall i :: 0 <= i < |log| ==> log[i].event != "deleteAllCookies"
  {
    DeleteEachLog(cfg, w, AllNames(w.jar), path, domain);
  }

  // ================================================================ policies

  /** Whatever `policies` returns is a value JSON.parse could build. */
  lemma ReadPoliciesWellFormed(cfg: Config, jar: Jar)
    requires ReadPolicies(cfg, jar).Return?
    ensures Json.WellFormed(ReadPolicies(cfg, jar).value)
  {
    var r := CookieStore.Get(jar, cfg.policiesKey).value;
    var text := if r.None? || r.value == "" then "{}" else r.value;
    ParseWellFormed(text);
  }

  /** `policies` is `{}` when the policies cookie is missing or empty. */
  lemma PoliciesDefault(cfg: Config, jar: Jar)
    requires CookieStore.Get(jar, cfg.policiesKey) == Return(None)
      || CookieStore.Get(jar, cfg.policiesKey) == Return(Some(""))
    ensures ReadPolicies(cfg, jar) == Return(Object([]))
  {
    ParseEmptyObject();
  }

  /** With no stored record every policy reads as null. */
  lemma NoPolicyAccepted(cfg: Config, jar: Jar, p: string)
    requires !Exists(jar, cfg.policiesKey)
    ensures IsPolicyAccepted(cfg, jar, p) == Return(None)
  {
    assert CookieStore.Get(jar, cfg.policiesKey) == Return(None);
    PoliciesDefault(cfg, jar);
    AcceptanceOfRecord(cfg, jar, [], p);
    ObjectAcceptance([], p);
  }

  /** `savePolicies(record)` and then `policies` gives the record back. */
  lemma PoliciesAfterSave(cfg: Config, w: World, record: Obj<Value>)
    requires CookieHeader.WellFormed(w.jar) && PlainKey(cfg.policiesKey)
    requires Unique(record) && MembersWellFormed(record)
    ensures CookieHeader.WellFormed(SavePolicies(cfg, w, record).jar)
    ensures ReadPolicies(cfg, SavePolicies(cfg, w, record).jar) == Return(Object(record))
  {
    var text := Stringify(record);
    var w1 := SavePolicies(cfg, w, record);
    GetAfterSet(cfg, w, cfg.policiesKey, text, NoOptions, cfg.policiesKey);
    StringifyStart(record);
    ParseStringify(record);
    ReadPoliciesOfText(cfg, w1.jar, text, Object(record));
  }

  /** A stored, non-empty policies cookie is read through JSON.parse. */
  lemma ReadPoliciesOfText(cfg: Config, jar: Jar, text: string, v: Value)
    requires CookieStore.Get(jar, cfg.policiesKey) == Return(Some(text))
    requires text != "" && Parse(text) == Some(v)
    ensures ReadPolicies(cfg, jar) == Return(v)
  {
  }

  /**
   * `setPolicy(p, b)` for `p` other than `essential`: afterwards
   * `isPolicyAccepted(p)` is `b`, `essential` is accepted, and every other
   * policy reads as in the stored record spread into an object.
   */
  lemma SetPolicyEffect(cfg: Config, w: World, p: string, b: bool, v: Value)
    requires CookieHeader.WellFormed(w.jar) && PlainKey(cfg.policiesKey)
    requires p != Essential && ReadPolicies(cfg, w.jar) == Return(v)
    ensures SetPolicy(cfg, w, p, b).Return?
    ensures var jar' := SetPolicy(cfg, w, p, b).value.jar;
      CookieHeader.WellFormed(jar')
      && ReadPolicies(cfg, jar') == Return(Object(SetPolicyRecord(v, p, b)))
      && IsPolicyAccepted(cfg, jar', p) == Return(Some(b))
      && IsPolicyAccepted(cfg, jar', Essential) == Return(Some(true))
      && forall k :: k != p && k != Essential ==>
           IsPolicyAccepted(cfg, jar', k) == Acceptance(Object(Spread(v)), k)
  {
    SetPolicySaves(cfg, w, p, b, v);
    SetPolicyAcceptance(cfg, SetPolicy(cfg, w, p, b).value.jar, p, b, v);
  }

  /** `setPolicy(p, b)` stores the record with `p` set and `essential` accepted. */
  lemma SetPolicySaves(cfg: Config, w: World, p: string, b: bool, v: Value)
    requires CookieHeader.WellFormed(w.jar) && PlainKey(cfg.policiesKey)
    requires p != Essential && ReadPolicies(cfg, w.jar) == Return(v)
    ensures SetPolicy(cfg, w, p, b).Return?
    ensures var jar' := SetPolicy(cfg, w, p, b).value.jar;
      CookieHeader.WellFormed(jar')
      && ReadPolicies(cfg, jar') == Return(Object(SetPolicyRecord(v, p, b)))
  {
    ReadPoliciesWellFormed(cfg, w.jar);
    SetPolicyRecordWellFormed(v, p, b);
    PoliciesAfterSave(cfg, w, SetPolicyRecord(v, p, b));
    SetPolicyJar(cfg, w, p, b, v);
  }

  /**
   * For a stored object, `setPolicy(p, b)` leaves every policy other than
   * `p` and `essential` reading as it did before.
   */
  lemma SetPolicyKeepsOthers(cfg: Config, w: World, p: string, b: bool, ms: Obj<Value>, k: string)
    requires CookieHeader.WellFormed(w.jar) && PlainKey(cfg.policiesKey)
    requires p != Essential && ReadPolicies(cfg, w.jar) == Return(Object(ms))
    requires k != p && k != Essential
    ensures SetPolicy(cfg, w, p, b).Return?
    ensures IsPolicyAccepted(cfg, SetPolicy(cfg, w, p, b).value.jar, k) == IsPolicyAccepted(cfg, w.jar, k)
  {
    SetPolicyEffect(cfg, w, p, b, Object(ms));
    ReadPoliciesWellFormed(cfg, w.jar);
    SpreadOfObject(ms);
    AcceptanceOfRecord(cfg, w.jar, ms, k);
  }

  /**
   * Repeating `setPolicy(p, b)` leaves the jar as the first call left it:
   * the record read back already holds `p` as `b` and `essential` as true.
   */
  lemma SetPolicyTwice(cfg: Config, w: World, p: string, b: bool, v: Value)
    requires CookieHeader.WellFormed(w.jar) && PlainKey(cfg.policiesKey)
    requires p != Essential && ReadPolicies(cfg, w.jar) == Return(v)
    ensures SetPolicy(cfg, w, p, b).Return?
    ensures var w1 := SetPolicy(cfg, w, p, b).value;
      SetPolicy(cfg, w1, p, b).Return? && SetPolicy(cfg, w1, p, b).value.jar == w1.jar
  {
    var record := SetPolicyRecord(v, p, b);
    SetPolicySaves(cfg, w, p, b, v);
    var w1 := SetPolicy(cfg, w, p, b).value;
    SetPolicySaves(cfg, w1, p, b, Object(record));
    assert SetPolicyRecord(Object(record), p, b) == record by {
      UniquePut(Spread(v), p, Bool(b));
      UniquePut(Put(Spread(v), p, Bool(b)), Essential, Bool(true));
      SpreadOfObject(record);
      GetPut(Put(Spread(v), p, Bool(b)), Essential, Bool(true), p);
      GetPut(Spread(v), p, Bool(b), p);
      PutSame(record, p, Bool(b));
      GetPut(Put(Spread(v), p, Bool(b)), Essential, Bool(true), Essential);
      PutSame(record, Essential, Bool(true));
    }
    SetPolicyJar(cfg, w, p, b, v);
    SetPolicyJar(cfg, w1, p, b, Object(record));
    var key := cfg.policiesKey;
    var value := Uri.Encode(Stringify(record));
    Uri.EncodeUnreserved(key);
    assert w1.jar == Upsert(w.jar, key, value);
    UpsertTwice(w.jar, key, value);
  }

  /** What `isPolicyAccepted` reads once the record `setPolicy(p, b)` saves is stored. */
  lemma SetPolicyAcceptance(cfg: Config, jar': Jar, p: string, b: bool, v: Value)
    requires p != Essential
    requires ReadPolicies(cfg, jar') == Return(Object(SetPolicyRecord(v, p, b)))
    ensures IsPolicyAccepted(cfg, jar', p) == Return(Some(b))
    ensures IsPolicyAccepted(cfg, jar', Essential) == Return(Some(true))
    ensures forall k :: k != p && k != Essential ==>
      IsPolicyAccepted(cfg, jar', k) == Acceptance(Object(Spread(v)), k)
  {
    var record := SetPolicyRecord(v, p, b);
    assert IsPolicyAccepted(cfg, jar', p) == Return(Some(b)) by {
      AcceptanceOfRecord(cfg, jar', record, p);
      ObjectAcceptance(record, p);
      SetPolicyRecordGet(v, p, b, p);
    }
    assert IsPolicyAccepted(cfg, jar', Essential) == Return(Some(true)) by {
      AcceptanceOfRecord(cfg, jar', record, Essential);
      ObjectAcceptance(record, Essential);
      SetPolicyRecordGet(v, p, b, Essential);
    }
    forall k | k != p && k != Essential
      ensures IsPolicyAccepted(cfg, jar', k) == Acceptance(Object(Spread(v)), k)
    {
      AcceptanceOfRecord(cfg, jar', record, k);
      SetPolicyRecordGet(v, p, b, k);
      SameAcceptance(record, Spread(v), k);
    }
  }

  lemma SetPolicyJar(cfg: Config, w: World, p: string, b: bool, v: Value)
    requires p != Essential && ReadPolicies(cfg, w.jar) == Return(v)
    ensures SetPolicy(cfg, w, p, b) == Return(SetPolicy(cfg, w, p, b).value)
    ensures SetPolicy(cfg, w, p, b).value.jar == SavePolicies(cfg, w, SetPolicyRecord(v, p, b)).jar
  {
  }

  lemma AcceptanceOfRecord(cfg: Config, jar: Jar, record: Obj<Value>, k: string)
    requires ReadPolicies(cfg, jar) == Return(Object(record))
    ensures IsPolicyAccepted(cfg, jar, k) == Acceptance(Object(record), k)
  {
  }

  /** Whether a policy is accepted depends only on the value stored under it. */
  lemma SameAcceptance(a: Obj<Value>, b: Obj<Value>, k: string)
    requires JsObject.Get(a, k) == JsObject.Get(b, k)
    ensures Acceptance(Object(a), k) == Acceptance(Object(b), k)
  {
  }

  /** `setPolicy("essential", b)` changes nothing. */
  lemma SetPolicyEssential(cfg: Config, w: World, b: bool)
    ensures SetPolicy(cfg, w, Essential, b) == Return(w)
  {
  }

  /**
   * `init()`: `essential` is accepted; a policy the stored record holds
   * keeps its stored value; `usage`, `settings` and each lower-cased extra
   * policy otherwise default to rejected; any other policy is absent.
   */
  lemma InitEffect(cfg: Config, w: World, v: Value, k: string)
    requires CookieHeader.WellFormed(w.jar) && PlainKey(cfg.policiesKey)
    requires ReadPolicies(cfg, w.jar) == Return(v)
    ensures Init(cfg, w).Return?
    ensures CookieHeader.WellFormed(Init(cfg, w).value.jar)
    ensures ReadPolicies(cfg, Init(cfg, w).value.jar) == Return(Object(InitRecord(cfg.extraPolicies, v)))
    ensures IsPolicyAccepted(cfg, Init(cfg, w).value.jar, k) ==
      if k == Essential then Return(Some(true))
      else if HasKey(OwnEntries(v), k) then Return(Some(Last(OwnEntries(v), k) == Some(Bool(true))))
      else if k == Usage || k == Settings || Lowers(cfg.extraPolicies, k) then Return(Some(false))
      else Return(None)
  {
    var record := InitRecord(cfg.extraPolicies, v);
    var w1 := SavePolicies(cfg, w, record);
    assert Init(cfg, w) == Return(w1);
    ReadPoliciesWellFormed(cfg, w.jar);
    InitRecordWellFormed(cfg.extraPolicies, v);
    PoliciesAfterSave(cfg, w, record);
    AcceptanceOfRecord(cfg, w1.jar, record, k);
    ObjectAcceptance(record, k);
    InitRecordGet(cfg.extraPolicies, v, k);
  }

  /** `init()` on a page without a policies cookie: only `essential` is accepted. */
  lemma InitOnFreshPage(cfg: Config, w: World, k: string)
    requires CookieHeader.WellFormed(w.jar) && PlainKey(cfg.policiesKey)
    requires !Exists(w.jar, cfg.policiesKey)
    ensures Init(cfg, w).Return?
    ensures IsPolicyAccepted(cfg, Init(cfg, w).value.jar, k) ==
      if k == Essential then Return(Some(true))
      else if k == Usage || k == Settings || Lowers(cfg.extraPolicies, k) then Return(Some(false))
      else Return(None)
  {
    assert ReadPolicies(cfg, w.jar) == Return(Object([])) by {
      assert CookieStore.Get(w.jar, cfg.policiesKey) == Return(None);
      PoliciesDefault(cfg, w.jar);
    }
    assert !HasKey(OwnEntries(Object([])), k);
    InitEffect(cfg, w, Object([]), k);
  }

  /**
   * `acceptAllPolicies()` and `rejectAllPolicies()`: each key of the stored
   * record, lower-cased, becomes accepted (rejected); reject-all also
   * accepts `essential`; no other policy is present. A stored `null` throws
   * TypeError and writes nothing.
   */
  lemma DecideAllEffect(cfg: Config, w: World, b: bool, v: Value, k: string)
    requires CookieHeader.WellFormed(w.jar) && PlainKey(cfg.policiesKey)
    requires ReadPolicies(cfg, w.jar) == Return(v)
    ensures DecideAll(cfg, w, b) == Throw(TypeError) <==> v.Null?
    ensures DecideAll(cfg, w, b).Return? ==>
      var keys := Keys(OwnEntries(v));
      var jar' := DecideAll(cfg, w, b).value.jar;
      CookieHeader.WellFormed(jar')
      && ReadPolicies(cfg, jar') == Return(Object(if b then AcceptAllRecord(keys) else RejectAllRecord(keys)))
      && IsPolicyAccepted(cfg, jar', k) ==
           if !b && k == Essential then Return(Some(true))
           else if Lowers(keys, k) then Return(Some(b))
           else Return(None)
  {
    if !v.Null? {
      var keys := Keys(OwnEntries(v));
      var record := if b then AcceptAllRecord(keys) else RejectAllRecord(keys);
      var jar' := SavePolicies(cfg, w, record).jar;
      assert DecideAll(cfg, w, b).Return? && DecideAll(cfg, w, b).value.jar == jar';
      AllRecordsWellFormed(keys);
      PoliciesAfterSave(cfg, w, record);
      AcceptanceOfRecord(cfg, jar', record, k);
      ObjectAcceptance(record, k);
      if b { AcceptAllRecordGet(keys, k); } else { RejectAllRecordGet(keys, k); }
    }
  }

  // ================================================================== events

  /**
   * After `on(e, cb)`, triggering `e` calls the earlier listeners and then
   * `cb`; every other event calls the same listeners as before.
   */
  lemma FireRegister(events: Listeners, e: string, cb: Callback, e2: string, d: Payload)
    requires e != "__proto__"
    ensures Fire(Register(events, e, cb), e2, d) ==
      if e2 == e then Fire(events, e2, d) + [Delivery(e, cb, d)] else Fire(events, e2, d)
  {
    if e2 == e {
      var r := Fire(Register(events, e, cb), e2, d);
      var before := Fire(events, e2, d);
      assert |r| == |before| + 1;
      forall i | 0 <= i < |r| ensures r[i] == (before + [Delivery(e, cb, d)])[i] {
      }
    }
  }

  /** An event nobody listens to calls no one. */
  lemma FireUnheard(events: Listeners, e: string, d: Payload)
    requires e !in events
    ensures Fire(events, e, d) == []
  {
  }

  /**
   * `acceptPolicy(p)` / `rejectPolicy(p)` for `p` other than `essential`:
   * the policies cookie is written (setCookie fires), then changePolicy
   * from `setPolicy`, then acceptPolicy / rejectPolicy, then changePolicy
   * a second time.
   */
  lemma DecidePolicyEvents(cfg: Config, w: World, p: string, b: bool, v: Value)
    requires p != Essential && cfg.policiesKey != "" && ReadPolicies(cfg, w.jar) == Return(v)
    ensures DecidePolicy(cfg, w, p, b).Return?
    ensures var w' := DecidePolicy(cfg, w, p, b).value;
      var d := SetData(cfg, cfg.policiesKey, Stringify(SetPolicyRecord(v, p, b)), NoOptions);
      w'.written == w.written + [d.cookie]
      && w'.delivered == w.delivered
         + Fire(cfg.events, "setCookie", d)
         + Fire(cfg.events, "changePolicy", Change(p, b))
         + Fire(cfg.events, if b then "acceptPolicy" else "rejectPolicy", PolicyData(p))
         + Fire(cfg.events, "changePolicy", Change(p, b))
  {
  }

  /**
   * `acceptPolicy("essential")` / `rejectPolicy("essential")` write
   * nothing, yet still fire acceptPolicy / rejectPolicy and changePolicy.
   */
  lemma DecideEssentialEvents(cfg: Config, w: World, b: bool)
    ensures DecidePolicy(cfg, w, Essential, b) == Return(w.(delivered := w.delivered
      + Fire(cfg.events, if b then "acceptPolicy" else "rejectPolicy", PolicyData(Essential))
      + Fire(cfg.events, "changePolicy", Change(Essential, b))))
  {
  }

  /**
   * `acceptAllPolicies()` / `rejectAllPolicies()`: setCookie for the new
   * record, then acceptAllPolicies / rejectAllPolicies, then changePolicy
   * with the whole record.
   */
  lemma DecideAllEvents(cfg: Config, w: World, b: bool, v: Value)
    requires cfg.policiesKey != "" && ReadPolicies(cfg, w.jar) == Return(v) && !v.Null?
    ensures DecideAll(cfg, w, b).Return?
    ensures var w' := DecideAll(cfg, w, b).value;
      var keys := Keys(OwnEntries(v));
      var record := if b then AcceptAllRecord(keys) else RejectAllRecord(keys);
      var d := SetData(cfg, cfg.policiesKey, Stringify(record), NoOptions);
      w'.written == w.written + [d.cookie]
      && w'.delivered == w.delivered
         + Fire(cfg.events, "setCookie", d)
         + Fire(cfg.events, if b then "acceptAllPolicies" else "rejectAllPolicies", NoData)
         + Fire(cfg.events, "changePolicy", RecordData(record))
  {
  }
}
