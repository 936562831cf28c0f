# Cookies: a verified model of the cookie-consent store

This project models the `Cookies` class of the National Archives front-end
library (`src/nationalarchives/lib/cookies.mjs`) and proves properties of it in Dafny.

## What the class does

The static slot `Cookies._instance` holds at most one instance of the
class. Constructing with another policies key puts a new instance in the
slot; the old one still exists, but is no longer current. The instance keeps a consent record, a JSON object that
maps each policy name to a boolean. The record is stored in one cookie, named
by `policiesKey` (by default `cookies_policy`). The policy `essential` is
always accepted.

The class also provides:

- a generic view of `document.cookie`: `all`, `exists`, `get`, `hasValue`,
  `set`, `delete` and `deleteAll`;
- a listener table: `on` registers a listener and `trigger` calls it.

## How the model is organised

The model has two layers.

**The pure layer.** `CookieStore` (cookiestore.dfy) states what every
operation does, as functions over two things:

- the instance settings (`Config`);
- the page (`World`), which holds:
  - the cookie jar;
  - every cookie string assigned to `document.cookie`;
  - every listener call made.

**The imperative layer.** The classes `Page` and `Cookies` (cookies.dfy) hold
that state in fields. Each method is proved to leave the page as the matching
`CookieStore` function says. The loops of the `all` getter, of `deleteAll`
and of `trigger` are written as loops with invariants.

### JavaScript behaviour the model states explicitly

- **Throws.** An uncaught exception becomes `Throw(e)` in an `Outcome`; every
  throw point comes before any write. The exceptions are:
  - `URIError` from `decodeURIComponent`;
  - `SyntaxError` from `JSON.parse`;
  - `TypeError` from `Object.keys(null)` and `hasOwnProperty.call(null, …)`.
- **Objects** are insertion-ordered association lists (jsobject.dfy). This
  includes the records built by spread and `Object.fromEntries`.
- **Text helpers** are modelled concretely:
  - `String.prototype.split`, `trim` and `toLowerCase` (jsstring.dfy);
  - `encodeURIComponent` and `decodeURIComponent`, with UTF-8 (uri.dfy);
  - `JSON.stringify` and `JSON.parse` (json.dfy).
- **Round trips** are proved for the URI pair (`Uri.DecodeEncode`) and for
  the JSON pair (`Json.ParseRender`, `Json.ParseStringify`). The jar's round
  trip through `document.cookie` and `all` is `CookieHeader.AllOfRender`.

### The browser's side

The browser's side of `document.cookie` is modelled as a jar: a sequence of
name/value pairs, kept in creation order.

- **Reading.** `document.cookie` lists the pairs as `name=value`, joined by
  `"; "`.
- **Writing.** An assignment updates the pair named at the head of the
  cookie string. A non-positive `max-age` removes the pair instead.
- **No parsing.** The model does not parse the assigned string back into a
  cookie. `Page.Assign` is handed the name, value and max-age that `set`
  encoded into the string. Separate lemmas prove what the browser would read
  at the head of that string (`StoreProperties.CookieStringPair`) and in its
  attributes (`StoreProperties.CookieStringAttributes`).

### Edge cases modelled as written

These behaviours of the code are captured in the model and proved as
properties:

- `acceptPolicy` and `rejectPolicy` fire `changePolicy` twice: once from
  inside `setPolicy`, and once more afterwards.
- `acceptPolicy("essential")` writes nothing, but still fires its two events.
- `setPolicy` does not lower-case the policy name, while `init` and the
  accept-all and reject-all paths do.
- `acceptAllPolicies` does not re-add `essential`.
- The singleton is one slot. Constructing with a different policies key
  replaces it. The new instance is current even when its `init` throws.
- A segment without `=` reads back as the text `"undefined"`
  (`StoreProperties.GetBareName`).
- A cookie named `__proto__` never appears in `all`. Its assignment goes to
  the prototype setter, which ignores strings.
- `set` encodes the key, but `get` looks the raw key up, so a key that
  needs escaping reads as before the `set` (`StoreProperties.GetAfterSetEscapedKey`).
- `deleteAll` re-encodes the names it lists. A cookie survives unless some
  listed name encodes to its name (`StoreProperties.DeleteAllKeeps`). A lone
  cookie whose name contains `%` survives (`StoreProperties.DeleteAllKeepsEscapedName`).
- `deleteAll` goes through `delete`, which runs the full `set`. So
  `deleteAll` writes one expired cookie string per name, fires `setCookie`
  and `deleteCookie` for each name, and ends with `deleteAllCookies`
  (`StoreProperties.DeleteAllLog`).

## Model

| member | source | states |
|---|---|---|
| Cookies.New | src/nationalarchives/lib/cookies.mjs:26-42 | With a current instance for the same policies key: returns it, and the page is unchanged. Otherwise: a fresh instance becomes `_instance`, with the given extra policies, the default domain `""`, the default secure `true`, the default key `cookies_policy` and an empty listener table; the page afterwards is what `CookieStore.Init` gives, or unchanged when init throws |
| Cookies.Cookies.constructor | src/nationalarchives/lib/cookies.mjs:35-40 | The instance fields take the given values, and the listener table starts empty |
| Cookies.Cookies.Init | src/nationalarchives/lib/cookies.mjs:45-55 | The page afterwards is `CookieStore.Init` of the page before; when reading the stored record throws, the page is unchanged and the error is reported |
| Cookies.Cookies.Destroy | src/nationalarchives/lib/cookies.mjs:57-60 | `_instance` becomes null and the jar and the written log are unchanged; exactly the listeners of `destroy` are called, with `{}` |
| Cookies.Cookies.All | src/nationalarchives/lib/cookies.mjs:62-74 | Returns `CookieHeader.All` of the current `document.cookie` text |
| Cookies.ReadSegments | src/nationalarchives/lib/cookies.mjs:67-72 | The `forEach` loop builds exactly the left fold `CookieHeader.Fold` of the segments |
| Cookies.Cookies.Set | src/nationalarchives/lib/cookies.mjs:119-146 | The page afterwards is `CookieStore.Set`: nothing for the empty key; otherwise one cookie string is written, the jar takes the encoded pair, and setCookie fires with the defaulted options |
| Cookies.Cookies.Delete | src/nationalarchives/lib/cookies.mjs:153-157 | The page afterwards is `CookieStore.Delete`: an expired `set` of `""`, then deleteCookie |
| Cookies.Cookies.DeleteAll | src/nationalarchives/lib/cookies.mjs:162-167 | The loop deletes each name of `Object.keys(this.all)` in order, then fires deleteAllCookies; the page afterwards is `CookieStore.DeleteAll` |
| Cookies.Cookies.SavePolicies | src/nationalarchives/lib/cookies.mjs:237-239 | The page afterwards is `set(policiesKey, JSON.stringify(record))` with no options |
| Cookies.Cookies.SetPolicy | src/nationalarchives/lib/cookies.mjs:194-204 | The page afterwards is `CookieStore.SetPolicy`, or unchanged with the error reported when reading the stored record throws |
| Cookies.Cookies.DecidePolicy | src/nationalarchives/lib/cookies.mjs:173-187 | acceptPolicy and rejectPolicy: the page afterwards is `CookieStore.DecidePolicy` (setPolicy, then the accept or reject event, then changePolicy) |
| Cookies.Cookies.DecideAll | src/nationalarchives/lib/cookies.mjs:209-231 | acceptAllPolicies and rejectAllPolicies: the page afterwards is `CookieStore.DecideAll`, including its TypeError for a stored `null` |
| Cookies.Cookies.On | src/nationalarchives/lib/cookies.mjs:257-262 | The listener table becomes `CookieStore.Register`: the callback is appended to the event's list; a `__proto__` registration changes nothing |
| Cookies.Cookies.Trigger | src/nationalarchives/lib/cookies.mjs:265-271 | The loop appends exactly `CookieStore.Fire`: one call per registered listener, in order, with the same data; nothing for an event without listeners |
| Cookies.Page.Assign | src/nationalarchives/lib/cookies.mjs:135 | `document.cookie = cookie`: the string is logged, and the jar becomes `CookieHeader.Store` of the pair |
| CookieStore.Exists | src/nationalarchives/lib/cookies.mjs:85-87 | `exists(k)` holds iff `k` is not empty, not `__proto__`, and the name of some segment of `document.cookie` |
| CookieStore.Get | src/nationalarchives/lib/cookies.mjs:104-106 | `get(k)` is null exactly when `exists(k)` is false |
| CookieStore.HasValue | src/nationalarchives/lib/cookies.mjs:95-97 | `hasValue` throws exactly where `get` throws; compared with null or undefined it holds exactly when the cookie does not exist |
| CookieStore.ReadPolicies | src/nationalarchives/lib/cookies.mjs:76-78 | `policies` throws URIError exactly when `get(policiesKey)` throws; any other throw is a SyntaxError |
| CookieStore.IsPolicyAccepted | src/nationalarchives/lib/cookies.mjs:246-250 | `isPolicyAccepted` throws exactly when `policies` throws or the stored record is `null`, and throws TypeError exactly in the `null` case |
| CookieStore.Fire | src/nationalarchives/lib/cookies.mjs:265-271 | One delivery per listener of the event |
| CookieHeader.Segments | src/nationalarchives/lib/cookies.mjs:64-66 | The pieces between `;` with the empty ones dropped: each is non-empty and free of `;` |
| CookieHeader.Entry | src/nationalarchives/lib/cookies.mjs:68 | The name and the value of a trimmed segment contain no `=` |
| CookieHeader.EntryOfPair | src/nationalarchives/lib/cookies.mjs:68-70 | A trimmed segment `name=value` gives that name and value |
| CookieHeader.EntryOfTwoEquals | src/nationalarchives/lib/cookies.mjs:68-70 | With a second `=`, the value is the text between the first and the second `=`, and the rest is lost |
| CookieHeader.EntryWithoutEquals | src/nationalarchives/lib/cookies.mjs:68-70 | A segment without `=` is a name whose value is undefined |
| CookieHeader.AllHasKey | src/nationalarchives/lib/cookies.mjs:62-74 | `all` has key `k` iff `k` is not empty, not `__proto__`, and the name of some segment; with `exists`, this is exactly when `exists(k)` holds |
| CookieHeader.AllLastWins | src/nationalarchives/lib/cookies.mjs:67-72 | The value of a name in `all` is the one from its last segment |
| CookieHeader.AllUnique | src/nationalarchives/lib/cookies.mjs:62-74 | `all` holds each name once |
| CookieHeader.FoldHasKey | src/nationalarchives/lib/cookies.mjs:67-72 | The fold from any starting object has a key iff the start has it, or the key is admissible and some segment is named by it |
| CookieHeader.FoldUnique | src/nationalarchives/lib/cookies.mjs:67-72 | The fold keeps names unique |
| CookieHeader.FoldGetLast | src/nationalarchives/lib/cookies.mjs:67-72 | A name's value after the fold is the value from its last segment |
| CookieHeader.AllOfRender | src/nationalarchives/lib/cookies.mjs:62-74 | For a well-formed jar, `all` of the rendered `document.cookie` maps each admissible name to the jar's value and has no other key |
| CookieHeader.LookupStore | src/nationalarchives/lib/cookies.mjs:135 | A write stores the value under its name, removes the name when max-age is not positive, and leaves the other names alone |
| CookieHeader.UpsertTwice | src/nationalarchives/lib/cookies.mjs:135 | Writing the same live pair twice leaves the jar as one write does |
| CookieHeader.StoreWellFormed | src/nationalarchives/lib/cookies.mjs:135 | A write of an encoded pair keeps the jar well formed |
| CookieHeader.Lookup | src/nationalarchives/lib/cookies.mjs:64 | A name has a value iff some cookie of the jar carries it |
| CookieHeader.Remove | src/nationalarchives/lib/cookies.mjs:135 | The jar without a name holds only the other cookies of the jar |
| StoreProperties.SetDefaults | src/nationalarchives/lib/cookies.mjs:119-135 | With no options, `set` writes `key=value;` then the instance domain when non-empty, ` samesite=Lax`, ` path=/`, ` max-age=31536000`, and ` secure` when the instance is secure |
| StoreProperties.DefaultMaxAgeText | src/nationalarchives/lib/cookies.mjs:121 | The default max-age is 60·60·24·365 = 31536000, written as that decimal text |
| StoreProperties.CookieStringAttributes | src/nationalarchives/lib/cookies.mjs:130-134 | The cookie string splits on `;` into the encoded pair, a ` domain=` piece only for a non-empty domain, then samesite, path and max-age, and ` secure` only when secure |
| StoreProperties.CookieStringSecure | src/nationalarchives/lib/cookies.mjs:133 | The cookie string ends in `; secure` iff secure is set |
| StoreProperties.CookieStringPair | src/nationalarchives/lib/cookies.mjs:130 | The head of the cookie string is the encoded key paired with the encoded value |
| StoreProperties.SetEmptyKey | src/nationalarchives/lib/cookies.mjs:127-129 | `set` with a falsy key changes nothing: no write and no event |
| StoreProperties.GetAfterSet | src/nationalarchives/lib/cookies.mjs:104-146 | After `set(key, value, opts)`, `get(key)` returns the value, or null when max-age is not positive; every other key reads as before; the jar stays well formed |
| StoreProperties.HasValueAfterSet | src/nationalarchives/lib/cookies.mjs:95-97 | For a well-formed jar and a key that encoding leaves unchanged, other than `__proto__`: after `set`, `hasValue(key, value)` holds; after an expired `set`, the key does not exist and `hasValue(key, null)` holds |
| StoreProperties.GetAfterSetEscapedKey | src/nationalarchives/lib/cookies.mjs:104-135 | For a well-formed jar and a key with a character that needs escaping, `get(key)` after `set(key, ...)` returns what it returned before |
| StoreProperties.GetAfterSetSpacedKey | src/nationalarchives/lib/cookies.mjs:104-135 | `set("a b", "v")` on an empty jar, then `get("a b")`, gives null |
| StoreProperties.GetBareName | src/nationalarchives/lib/cookies.mjs:68-106 | When the last segment named `k` has no `=`, `get(k)` is the text `"undefined"` |
| StoreProperties.GetAfterDelete | src/nationalarchives/lib/cookies.mjs:153-157 | For a well-formed jar and a key that encoding leaves unchanged, other than `__proto__`: after `delete(key)`, `get(key)` is null, and every other key reads as before |
| StoreProperties.DeleteWrites | src/nationalarchives/lib/cookies.mjs:153-157 | `delete` writes the expired empty cookie, for the instance domain when the given domain is null or empty; it delivers `DeleteEvents`: setCookie for a non-empty key, then deleteCookie, which fires even for the empty key |
| StoreProperties.DeleteJar | src/nationalarchives/lib/cookies.mjs:153-157 | `delete(key)` takes the cookie named `encodeURIComponent(key)` out of the jar; the empty key touches nothing |
| StoreProperties.DeleteEachLookup | src/nationalarchives/lib/cookies.mjs:163-165 | Deleting the names in turn removes exactly the cookies named by their encodings |
| StoreProperties.DeleteAllClears | src/nationalarchives/lib/cookies.mjs:162-167 | When every name is unchanged by encoding, no cookie `exists` afterwards, and the jar stays well formed |
| StoreProperties.DeleteAllKeeps | src/nationalarchives/lib/cookies.mjs:162-167 | A cookie that no listed name encodes to keeps its value |
| StoreProperties.DeleteAllRemovesPlainKey | src/nationalarchives/lib/cookies.mjs:162-167 | For a well-formed jar, after `deleteAll` no key that encoding leaves unchanged (other than `__proto__`) exists, whatever other names the page holds; the jar stays well formed |
| StoreProperties.PoliciesAfterDeleteAll | src/nationalarchives/lib/cookies.mjs:162-167 | For a well-formed jar and a policies key that encoding leaves unchanged: after `deleteAll`, `get(policiesKey)` is null and `policies` is `{}` |
| StoreProperties.DeleteAllKeepsEscapedName | src/nationalarchives/lib/cookies.mjs:163-164 | In a jar holding only that cookie, a cookie whose name contains `%` survives `deleteAll` |
| StoreProperties.DeletesLog | src/nationalarchives/lib/cookies.mjs:163-165 | The deliveries of deleting names one by one are all setCookie or deleteCookie |
| StoreProperties.DeleteEachLog | src/nationalarchives/lib/cookies.mjs:163-165 | Deleting names in turn writes one expired cookie per non-empty name, in order, and delivers for each name, in order, setCookie (non-empty names only) and then deleteCookie |
| StoreProperties.DeleteAllLog | src/nationalarchives/lib/cookies.mjs:162-167 | `deleteAll` writes and delivers the per-name log for the names of `all`, in their order, and then deliveries of deleteAllCookies; none of the earlier deliveries is a deleteAllCookies |
| StoreProperties.PoliciesDefault | src/nationalarchives/lib/cookies.mjs:76-78 | `policies` is `{}` when the policies cookie is missing or empty |
| StoreProperties.ReadPoliciesOfText | src/nationalarchives/lib/cookies.mjs:76-78 | A stored non-empty record is read through `JSON.parse` |
| StoreProperties.ReadPoliciesWellFormed | src/nationalarchives/lib/cookies.mjs:77 | What `policies` returns is a value `JSON.parse` can build |
| StoreProperties.NoPolicyAccepted | src/nationalarchives/lib/cookies.mjs:246-250 | With no policies cookie, `policies` is `{}` and every policy reads as null |
| StoreProperties.PoliciesAfterSave | src/nationalarchives/lib/cookies.mjs:237-239 | `savePolicies(record)`, then reading `policies`, gives the record back |
| StoreProperties.InitEffect | src/nationalarchives/lib/cookies.mjs:45-55 | After init: `essential` is accepted; a policy the stored record holds keeps its stored value; otherwise `usage`, `settings` and each lower-cased extra policy are rejected; any other policy reads as null |
| StoreProperties.InitOnFreshPage | src/nationalarchives/lib/cookies.mjs:45-55 | Init on a page without a policies cookie: only `essential` is accepted; usage, settings and the extras are rejected |
| StoreProperties.SetPolicyEffect | src/nationalarchives/lib/cookies.mjs:194-204 | For `p` other than `essential`: afterwards `isPolicyAccepted(p)` is `b` and `essential` is accepted; every other policy reads as in the stored record spread into an object |
| StoreProperties.SetPolicySaves | src/nationalarchives/lib/cookies.mjs:198-202 | For a well-formed jar and a policies key that encoding leaves unchanged: `setPolicy` stores `{...policies, [p]: b, essential: true}` |
| StoreProperties.SetPolicyKeepsOthers | src/nationalarchives/lib/cookies.mjs:198-202 | For a well-formed jar, a policies key that encoding leaves unchanged, and a stored object: every policy other than `p` and `essential` reads after `setPolicy(p, b)` as it did before |
| StoreProperties.SetPolicyTwice | src/nationalarchives/lib/cookies.mjs:194-204 | For a well-formed jar and a policies key that encoding leaves unchanged: a second `setPolicy(p, b)` succeeds and leaves the jar (and so the stored record) as the first left it |
| StoreProperties.SetPolicyAcceptance | src/nationalarchives/lib/cookies.mjs:246-250 | What `isPolicyAccepted` reads from the record `setPolicy` saves |
| StoreProperties.SetPolicyEssential | src/nationalarchives/lib/cookies.mjs:195-197 | `setPolicy("essential", b)` writes nothing and fires nothing |
| StoreProperties.DecideAllEffect | src/nationalarchives/lib/cookies.mjs:209-231 | Accept-all and reject-all throw TypeError exactly for a stored `null`. Otherwise each stored key, lower-cased, reads as accepted (accept-all) or rejected (reject-all); reject-all also accepts `essential`; no other policy is present |
| StoreProperties.FireRegister | src/nationalarchives/lib/cookies.mjs:257-271 | After `on(e, cb)`, triggering `e` calls the earlier listeners and then `cb`; other events call the same listeners as before |
| StoreProperties.FireUnheard | src/nationalarchives/lib/cookies.mjs:266 | An event with no listeners calls no one |
| StoreProperties.DecidePolicyEvents | src/nationalarchives/lib/cookies.mjs:173-204 | acceptPolicy and rejectPolicy write one cookie string, then fires, in order: setCookie, changePolicy `{p: b}`, the accept or reject event, and changePolicy `{p: b}` again |
| StoreProperties.DecideEssentialEvents | src/nationalarchives/lib/cookies.mjs:173-187 | acceptPolicy and rejectPolicy of `essential`: no write, but the accept or reject event and changePolicy still fire |
| StoreProperties.DecideAllEvents | src/nationalarchives/lib/cookies.mjs:209-231 | Accept-all and reject-all: one write, then setCookie, the all-policies event, and changePolicy with the whole record |
| Policies.InitRecordGet | src/nationalarchives/lib/cookies.mjs:46-54 | The init record: `essential` is true; stored entries win over the defaults; `usage`, `settings` and the lower-cased extras default to false; nothing else is present |
| Policies.InitRecordOfObject | src/nationalarchives/lib/cookies.mjs:46-54 | The same for a stored object, read directly |
| Policies.SetPolicyRecordGet | src/nationalarchives/lib/cookies.mjs:198-202 | The setPolicy record: `p` maps to `b`, `essential` to true, and the rest is as spread from the stored record |
| Policies.AcceptAllRecordGet | src/nationalarchives/lib/cookies.mjs:210-212 | Accept-all maps each lower-cased key to true and adds no key |
| Policies.AcceptAllRecordEmpty | src/nationalarchives/lib/cookies.mjs:210-213 | Accept-all of an empty record is empty; `essential` is not added |
| Policies.RejectAllRecordGet | src/nationalarchives/lib/cookies.mjs:222-227 | Reject-all maps each lower-cased key to false, then sets `essential` to true |
| Policies.AcceptanceOfObject | src/nationalarchives/lib/cookies.mjs:246-250 | `isPolicyAccepted` on an object: null iff the key is absent; true iff the value is strictly `true`; false iff the key is present with any other value |
| Policies.Acceptance | src/nationalarchives/lib/cookies.mjs:247 | Throws exactly for a stored `null` (`hasOwnProperty.call(null)`) |
| Policies.OwnKeys | src/nationalarchives/lib/cookies.mjs:211 | `Object.keys` throws exactly for `null` |
| Policies.FlagsShape | src/nationalarchives/lib/cookies.mjs:48 | `keys.map(k => [k.toLowerCase(), b])` has a key iff some key lower-cases to it, and that key maps to `b` |
| Policies.AcceptAllKeys | src/nationalarchives/lib/cookies.mjs:210-212 | The accept-all keys are exactly the lower-cased stored keys |
| Uri.DecodeEncode | src/nationalarchives/lib/cookies.mjs:105 | `decodeURIComponent(encodeURIComponent(s)) == s` |
| Uri.EncodeUnreserved | src/nationalarchives/lib/cookies.mjs:130 | encodeURIComponent leaves a string of unreserved characters unchanged |
| Uri.EncodeEmpty | src/nationalarchives/lib/cookies.mjs:130 | Encoding is empty only for the empty string |
| Uri.DecodeUnreserved | src/nationalarchives/lib/cookies.mjs:105 | decodeURIComponent leaves a string of unreserved characters unchanged |
| Uri.EncodeChanges | src/nationalarchives/lib/cookies.mjs:130 | A string with a character outside the unreserved set is never its own encoding |
| Uri.EncodeLonger | src/nationalarchives/lib/cookies.mjs:163-164 | Encoding a string that contains `%` makes it longer, so the name changes |
| Uri.Encode | src/nationalarchives/lib/cookies.mjs:130 | The encoding holds only unreserved characters and `%`, and is no shorter than the input |
| Json.ParseRender | src/nationalarchives/lib/cookies.mjs:77 | `JSON.parse` of the serialisation of a well-formed value gives the value back |
| Json.ParseStringify | src/nationalarchives/lib/cookies.mjs:238 | `JSON.parse(JSON.stringify(record))` is the record |
| Json.ParseWellFormed | src/nationalarchives/lib/cookies.mjs:77 | Whatever `JSON.parse` returns is well formed (distinct keys, valid numbers) |
| Json.ParseEmptyObject | src/nationalarchives/lib/cookies.mjs:77 | `JSON.parse("{}")` is the empty object |
| JsObject.GetPut | src/nationalarchives/lib/cookies.mjs:70 | An assignment `o[k] = v` makes `k` read `v` and leaves other keys alone |
| JsObject.KeysPut | src/nationalarchives/lib/cookies.mjs:70 | Assigning to an existing key keeps the key order; a new key is appended |
| JsObject.GetPutAll | src/nationalarchives/lib/cookies.mjs:47-53 | After a spread or `fromEntries`, a key reads its last entry, or as before when the entries lack it |
| JsObject.SpreadCopy | src/nationalarchives/lib/cookies.mjs:199 | Spreading an object with distinct keys copies it |
| JsString.JoinSplit | src/nationalarchives/lib/cookies.mjs:65 | `split` loses nothing: joining the pieces gives the string back |
| JsString.SplitJoin | src/nationalarchives/lib/cookies.mjs:68 | Splitting pieces joined by a separator they do not contain gives the pieces back |
| JsString.TrimOfTrimmed | src/nationalarchives/lib/cookies.mjs:68 | `trim` of a string without surrounding white space is the string itself |
| JsString.ToLowerIsLower | src/nationalarchives/lib/cookies.mjs:48 | `toLowerCase` leaves no upper-case letter |
| JsString.ToLowerOfLower | src/nationalarchives/lib/cookies.mjs:211 | `toLowerCase` of a lower-case string is the string |

## Left out

- **Browser cookie semantics.** The jar does not model expiry by time, path and domain scoping, or the effect of `secure` and `samesite`. The jar keeps one cookie per name; only the max-age sign is modelled (a non-positive max-age removes the cookie).
- **The browser's parsing of `document.cookie` assignments.** `Page.Assign` receives the name, value and max-age that `set` put into the string. Separate lemmas show the head and attributes of that string.
- **Listener bodies.** Callbacks are opaque handles (`nat`), and a delivery is recorded instead of running code. A listener cannot change the store, and its exceptions are not modelled.
- **Loose equality in `hasValue`.** It is modelled only for a string, `null` or `undefined` argument, where `==` is plain equality. Numbers and booleans are left out.
- **Non-string arguments.** Coercion of keys, values and options to strings is left out: they are strings, numbers are `int`, and flags are `bool`. The constructor's and `delete`'s default arguments are `Option` values.
- **JSON numbers.** A number is carried as its literal text, not as a double. So where JavaScript writes a stored `1.0` back as `1` and `1e400` back as `null`, the model's `init` and `setPolicy` write the literal text back unchanged. The written cookie string, the jar and `get(policiesKey)` then differ from the browser's; the acceptance results (`isPolicyAccepted`) are the same.
- **JSON key order.** JavaScript lists integer-like keys first when an object is built. The model keeps insertion order for every key. This also governs the order in which `all` lists names, and so the order of `deleteAll`'s writes and deliveries: for cookies named `2` and `1`, JavaScript deletes `1` first, the model `2`.
- **Unicode.** Strings are sequences of code points. Lone surrogates (where `encodeURIComponent` throws URIError) and UTF-16 indexing are not modelled. `JSON.parse` accepts a lone-surrogate escape such as `"\ud800"`, but `Json.Parse` rejects it, so for a stored record holding one, every operation of the model that reads `policies` (`init`, `setPolicy`, `isPolicyAccepted`, accept-all and reject-all) throws SyntaxError where the browser carries on. `toLowerCase` covers the ASCII letters only.
- StoreProperties.GetAfterSet: proved for a well-formed jar and a key that encodeURIComponent leaves unchanged, other than `__proto__`. For other keys `get` looks up the raw key while `set` wrote the encoded one, which `StoreProperties.GetAfterSetEscapedKey` states for a key with a character that needs escaping.
- StoreProperties.HasValueAfterSet: proved for a well-formed jar and a key that encoding leaves unchanged, other than `__proto__`, because it reads back through `get` (see GetAfterSet).
- StoreProperties.GetAfterDelete: proved for a well-formed jar and a key that encoding leaves unchanged, other than `__proto__`; for a key that needs escaping `delete` removes the encoded name, which `get` does not look up.
- StoreProperties.PoliciesAfterSave: proved for a well-formed jar and a policies key that encoding leaves unchanged, other than `__proto__`, because it reads back what it wrote.
- StoreProperties.SetPolicySaves: proved for a well-formed jar and a policies key that encoding leaves unchanged, other than `__proto__`.
- StoreProperties.SetPolicyEffect: proved for a well-formed jar and a policies key that encoding leaves unchanged, other than `__proto__`, because it reads back what it wrote.
- StoreProperties.InitEffect: proved for a well-formed jar and a policies key that encoding leaves unchanged, other than `__proto__`, because it reads back what it wrote.
- StoreProperties.InitOnFreshPage: proved for a well-formed jar and a policies key that encoding leaves unchanged, other than `__proto__`, because it reads back what it wrote.
- StoreProperties.DecideAllEffect: proved for a well-formed jar and a policies key that encoding leaves unchanged, other than `__proto__`, because it reads back what it wrote.
- StoreProperties.SetPolicyKeepsOthers: proved for a well-formed jar and a policies key that encoding leaves unchanged, other than `__proto__`, because it reads back what it wrote.
- StoreProperties.SetPolicyTwice: proved for a well-formed jar and a policies key that encoding leaves unchanged, other than `__proto__`, because it reads back what it wrote.
- StoreProperties.PoliciesAfterDeleteAll: proved for a well-formed jar and a policies key that encoding leaves unchanged, other than `__proto__`. For a policies key that needs escaping, `get(policiesKey)` looks up the raw key while the jar holds encoded names (see GetAfterSetEscapedKey).
- StoreProperties.DeleteAllRemovesPlainKey: proved for a well-formed jar and a key that encoding leaves unchanged, other than `__proto__`. For other names, which cookies go is stated by `DeleteAllKeeps` and `DeleteEachLookup`.
- **Context files.** `src/nationalarchives/all.mjs` (page wiring, theme detection, widget start-up) and the Storybook fixtures are not part of this model.
