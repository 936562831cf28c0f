/**
 * The consent record: the JSON object, stored in the policies cookie, that
 * maps each policy name to whether it is accepted. These are the values
 * `init`, `setPolicy` and the accept-all and reject-all paths build, and
 * the reading `isPolicyAccepted` makes of it.
 */
module Policies {
  import opened Wrappers
  import opened JsObject
  import opened JsString
  import opened Json

  /** The policy that is always accepted. */
  const Essential := "essential"
  const Usage := "usage"
  const Settings := "settings"

  /** The property key of an array or string index. */
  function IndexKey(i: nat): string { NatToString(i) }

  /**
   * The own enumerable properties of `v`, in order: what `{...v}` copies
   * and `Object.keys(v)` lists. Arrays and strings have one per index;
   * `true`, numbers and `null` have none.
   */
  function OwnEntries(v: Value): Obj<Value> {
    match v
    case Object(ms) => ms
    case Arr(items) => seq(|items|, i requires 0 <= i < |items| => (IndexKey(i), items[i]))
    case Str(s) => seq(|s|, i requires 0 <= i < |s| => (IndexKey(i), Str([s[i]])))
    case _ => []
  }

  /** `{...v}`: a fresh object holding the own properties of `v`. */
  function Spread(v: Value): (r: Obj<Value>)
    ensures Unique(r)
  {
    UniquePutAll([], OwnEntries(v));
    PutAll([], OwnEntries(v))
  }

  /** `Object.keys(v)`; throws TypeError for `null`. */
  function OwnKeys(v: Value): (r: Outcome<seq<string>>)
    ensures r.Throw? <==> v.Null?
  {
    if v.Null? then Throw(TypeError) else Return(Keys(OwnEntries(v)))
  }

  /** What `v[k]` reads for an own property of `v`. */
  predicate IsTrueAt(v: Value, k: string) {
    Get(OwnEntries(v), k) == Some(Bool(true))
  }

  /**
   * `hasOwnProperty.call(v, p) ? v[p] === true : null`: `None` when `p` is
   * not an own property (arrays and strings also own `length`); throws
   * TypeError for `null`.
   */
  function Acceptance(v: Value, p: string): (r: Outcome<Option<bool>>)
    ensures r.Throw? <==> v.Null?
  {
    if v.Null? then Throw(TypeError)
    else if HasKey(OwnEntries(v), p) || ((v.Arr? || v.Str?) && p == "length") then Return(Some(IsTrueAt(v, p)))
    else Return(None)
  }

  /** `keys.map((k) => [k.toLowerCase(), b])`. */
  function Flags(keys: seq<string>, b: bool): (r: Obj<Value>)
    ensures |r| == |keys|
  {
    seq(|keys|, i requires 0 <= i < |keys| => (ToLower(keys[i]), Bool(b)))
  }

  /** The record `init` saves: defaults first, the stored record over them, `essential` last. */
  function InitRecord(extras: seq<string>, stored: Value): Obj<Value> {
    var defaults := Put(Put(PutAll([], Flags(extras, false)), Usage, Bool(false)), Settings, Bool(false));
    Put(PutAll(defaults, OwnEntries(stored)), Essential, Bool(true))
  }

  /** The record `setPolicy(p, b)` saves. */
  function SetPolicyRecord(stored: Value, p: string, b: bool): Obj<Value> {
    Put(Put(Spread(stored), p, Bool(b)), Essential, Bool(true))
  }

  /** The record `acceptAllPolicies` saves. */
  function AcceptAllRecord(keys: seq<string>): Obj<Value> {
    PutAll([], Flags(keys, true))
  }

  /** The record `rejectAllPolicies` saves. */
  function RejectAllRecord(keys: seq<string>): Obj<Value> {
    Put(PutAll([], Flags(keys, false)), Essential, Bool(true))
  }

  /** Some key lower-cases to `k`. */
  predicate Lowers(keys: seq<string>, k: string) {
    exists i :: 0 <= i < |keys| && ToLower(keys[i]) == k
  }

  // ==================================================================== lemmas

  lemma {:induction false} FlagsShape(keys: seq<string>, b: bool, k: string)
    ensures HasKey(Flags(keys, b), k) <==> Lowers(keys, k)
    ensures Lowers(keys, k) ==> Last(Flags(keys, b), k) == Some(Bool(b))
    decreases |keys|
  {
    var f := Flags(keys, b);
    if HasKey(f, k) {
      var i :| 0 <= i < |f| && f[i].0 == k;
      assert ToLower(keys[i]) == k;
    }
    if Lowers(keys, k) {
      var i :| 0 <= i < |keys| && ToLower(keys[i]) == k;
      assert f[i].0 == k;
    }
    if keys != [] {
      var init := keys[..|keys| - 1];
      assert Flags(init, b) == f[..|f| - 1];
      FlagsShape(init, b, k);
      if ToLower(keys[|keys| - 1]) != k && Lowers(keys, k) {
        var i :| 0 <= i < |keys| && ToLower(keys[i]) == k;
        assert init[i] == keys[i];
      }
    }
  }

  lemma FlagsWellFormed(keys: seq<string>, b: bool)
    ensures MembersWellFormed(Flags(keys, b))
  {
    MembersWellFormedEach(Flags(keys, b));
  }

  /**
   * After `init`: `essential` is true; a stored policy keeps its stored
   * value; each lower-cased extra policy and `usage` and `settings`
   * defaults to false; no other key is present.
   */
  lemma InitRecordGet(extras: seq<string>, stored: Value, k: string)
    ensures Get(InitRecord(extras, stored), k) ==
      if k == Essential then Some(Bool(true))
      else if HasKey(OwnEntries(stored), k) then Last(OwnEntries(stored), k)
      else if k == Usage || k == Settings || Lowers(extras, k) then Some(Bool(false))
      else None
  {
    var flags := PutAll([], Flags(extras, false));
    var defaults := Put(Put(flags, Usage, Bool(false)), Settings, Bool(false));
    GetPut(PutAll(defaults, OwnEntries(stored)), Essential, Bool(true), k);
    GetPutAll(defaults, OwnEntries(stored), k);
    GetPut(Put(flags, Usage, Bool(false)), Settings, Bool(false), k);
    GetPut(flags, Usage, Bool(false), k);
    GetPutAll([], Flags(extras, false), k);
    FlagsShape(extras, false, k);
  }

  /** For a stored object (what JSON.parse returns for `{...}`), "stored wins" reads directly. */
  lemma InitRecordOfObject(extras: seq<string>, ms: Obj<Value>, k: string)
    requires Unique(ms)
    ensures Get(InitRecord(extras, Object(ms)), k) ==
      if k == Essential then Some(Bool(true))
      else if HasKey(ms, k) then Get(ms, k)
      else if k == Usage || k == Settings || Lowers(extras, k) then Some(Bool(false))
      else None
  {
    InitRecordGet(extras, Object(ms), k);
    LastIsGet(ms, k);
  }

  lemma {:induction false} OwnEntriesWellFormed(v: Value)
    requires WellFormed(v)
    ensures MembersWellFormed(OwnEntries(v))
  {
    MembersWellFormedEach(OwnEntries(v));
    match v
    case Arr(items) => ItemsWellFormedEach(items);
    case Object(ms) => MembersWellFormedEach(ms);
    case _ =>
  }

  /** The record init saves is an object JSON.stringify and JSON.parse carry unchanged. */
  lemma InitRecordWellFormed(extras: seq<string>, stored: Value)
    requires WellFormed(stored)
    ensures Unique(InitRecord(extras, stored)) && MembersWellFormed(InitRecord(extras, stored))
  {
    var flags := PutAll([], Flags(extras, false));
    var defaults := Put(Put(flags, Usage, Bool(false)), Settings, Bool(false));
    UniquePutAll([], Flags(extras, false));
    UniquePut(flags, Usage, Bool(false));
    UniquePut(Put(flags, Usage, Bool(false)), Settings, Bool(false));
    UniquePutAll(defaults, OwnEntries(stored));
    UniquePut(PutAll(defaults, OwnEntries(stored)), Essential, Bool(true));
    FlagsWellFormed(extras, false);
    MembersPutAll([], Flags(extras, false));
    MembersPut(flags, Usage, Bool(false));
    MembersPut(Put(flags, Usage, Bool(false)), Settings, Bool(false));
    OwnEntriesWellFormed(stored);
    MembersPutAll(defaults, OwnEntries(stored));
    MembersPut(PutAll(defaults, OwnEntries(stored)), Essential, Bool(true));
  }

  /** `setPolicy(p, b)` for `p` other than `essential`: `p` becomes `b`, `essential` true, the rest as stored. */
  lemma SetPolicyRecordGet(stored: Value, p: string, b: bool, k: string)
    requires p != Essential
    ensures Get(SetPolicyRecord(stored, p, b), k) ==
      if k == p then Some(Bool(b))
      else if k == Essential then Some(Bool(true))
      else Get(Spread(stored), k)
  {
    GetPut(Put(Spread(stored), p, Bool(b)), Essential, Bool(true), k);
    GetPut(Spread(stored), p, Bool(b), k);
  }

  /** A stored object spreads to itself, so "the rest as stored" is the stored object's values. */
  lemma SpreadOfObject(ms: Obj<Value>)
    requires Unique(ms)
    ensures Spread(Object(ms)) == ms
  {
    SpreadCopy(ms);
  }

  lemma SetPolicyRecordWellFormed(stored: Value, p: string, b: bool)
    requires WellFormed(stored)
    ensures Unique(SetPolicyRecord(stored, p, b)) && MembersWellFormed(SetPolicyRecord(stored, p, b))
  {
    UniquePut(Spread(stored), p, Bool(b));
    UniquePut(Put(Spread(stored), p, Bool(b)), Essential, Bool(true));
    OwnEntriesWellFormed(stored);
    MembersPutAll([], OwnEntries(stored));
    MembersPut(Spread(stored), p, Bool(b));
    MembersPut(Put(Spread(stored), p, Bool(b)), Essential, Bool(true));
  }

  /** Accept-all maps each (lower-cased) key to true and adds none. */
  lemma AcceptAllRecordGet(keys: seq<string>, k: string)
    ensures Get(AcceptAllRecord(keys), k) == if Lowers(keys, k) then Some(Bool(true)) else None
  {
    GetPutAll([], Flags(keys, true), k);
    FlagsShape(keys, true, k);
  }

  /** Accepting all of an empty record leaves it empty. */
  lemma AcceptAllRecordEmpty()
    ensures AcceptAllRecord([]) == []
  {
    assert Flags([], true) == [];
  }

  /** Reject-all maps each (lower-cased) key to false, then sets `essential` to true. */
  lemma RejectAllRecordGet(keys: seq<string>, k: string)
    ensures Get(RejectAllRecord(keys), k) ==
      if k == Essential then Some(Bool(true))
      else if Lowers(keys, k) then Some(Bool(false))
      else None
  {
    GetPut(PutAll([], Flags(keys, false)), Essential, Bool(true), k);
    GetPutAll([], Flags(keys, false), k);
    FlagsShape(keys, false, k);
  }

  lemma AllRecordsWellFormed(keys: seq<string>)
    ensures Unique(AcceptAllRecord(keys)) && MembersWellFormed(AcceptAllRecord(keys))
    ensures Unique(RejectAllRecord(keys)) && MembersWellFormed(RejectAllRecord(keys))
  {
    UniquePutAll([], Flags(keys, true));
    UniquePutAll([], Flags(keys, false));
    UniquePut(PutAll([], Flags(keys, false)), Essential, Bool(true));
    FlagsWellFormed(keys, true);
    FlagsWellFormed(keys, false);
    MembersPutAll([], Flags(keys, true));
    MembersPutAll([], Flags(keys, false));
    MembersPut(PutAll([], Flags(keys, false)), Essential, Bool(true));
  }

  /** For an object, acceptance is whether the property is present and `true`. */
  lemma ObjectAcceptance(ms: Obj<Value>, k: string)
    ensures Acceptance(Object(ms), k) ==
      if Get(ms, k).Some? then Return(Some(Get(ms, k) == Some(Bool(true)))) else Return(None)
  {
  }

  /**
   * `isPolicyAccepted` on a stored object: null for a missing key, true
   * only for a value that is strictly `true`, false for any other value.
   */
  lemma AcceptanceOfObject(ms: Obj<Value>, p: string)
    ensures Acceptance(Object(ms), p) == Return(None) <==> !HasKey(ms, p)
    ensures Acceptance(Object(ms), p) == Return(Some(true)) <==> Get(ms, p) == Some(Bool(true))
    ensures Acceptance(Object(ms), p) == Return(Some(false)) <==> HasKey(ms, p) && Get(ms, p) != Some(Bool(true))
  {
    ObjectAcceptance(ms, p);
  }

  /** Accept-all has a key exactly when some stored key lower-cases to it. */
  lemma AcceptAllKeys(o: Obj<Value>, k: string)
    ensures HasKey(AcceptAllRecord(Keys(o)), k) <==> exists i :: 0 <= i < |o| && ToLower(o[i].0) == k
  {
    AcceptAllRecordGet(Keys(o), k);
    if exists i :: 0 <= i < |o| && ToLower(o[i].0) == k {
      var i :| 0 <= i < |o| && ToLower(o[i].0) == k;
      assert Keys(o)[i] == o[i].0;
    }
  }
}
