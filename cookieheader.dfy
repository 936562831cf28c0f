/**
 * The page's cookie jar as `document.cookie` shows it, the `all` parser the
 * cookie store reads it with, and how a write through `document.cookie`
 * changes the jar.
 */
module CookieHeader {
  import opened Wrappers
  import opened JsObject
  import opened JsString
  import Uri
  import opened Seqs

  /** A cookie the browser holds for the page. */
  datatype Cookie = Cookie(name: string, value: string)

  /** The jar, in creation order (the order `document.cookie` lists it). */
  type Jar = seq<Cookie>

  // ------------------------------------------------------------ the jar's text

  /** One cookie as `document.cookie` shows it; a nameless cookie shows its value alone. */
  function Pair(c: Cookie): string {
    if c.name == "" then c.value else c.name + "=" + c.value
  }

  function HeaderRest(cs: Jar): string {
    if cs == [] then "" else "; " + Pair(cs[0]) + HeaderRest(cs[1..])
  }

  /** Reading `document.cookie`: the pairs separated by `"; "`. */
  function Header(jar: Jar): string {
    if jar == [] then "" else Pair(jar[0]) + HeaderRest(jar[1..])
  }

  /** The value of the cookie named `k`, if the jar has one. */
  function Lookup(jar: Jar, k: string): (r: Option<string>)
    ensures r.Some? <==> exists i :: 0 <= i < |jar| && jar[i].name == k
  {
    if jar == [] then None
    else if jar[0].name == k then Some(jar[0].value)
    else
      var r := Lookup(jar[1..], k);
      assert forall i :: 1 <= i < |jar| ==> jar[i] == jar[1..][i - 1];
      r
  }

  /** Names and values in the alphabet `encodeURIComponent` writes, names non-empty and distinct. */
  predicate WellFormed(jar: Jar) {
    (forall i :: 0 <= i < |jar| ==>
      jar[i].name != "" && Uri.AllUriSafe(jar[i].name) && Uri.AllUriSafe(jar[i].value))
    && (forall i, j :: 0 <= i < j < |jar| ==> jar[i].name != jar[j].name)
  }

  // -------------------------------------------------------------- the `all` parser

  /** `.filter((x) => x)`: the empty pieces dropped. */
  function NonEmpty(pieces: seq<string>): (r: seq<string>)
    ensures forall i :: 0 <= i < |r| ==> r[i] != "" && r[i] in pieces
  {
    if pieces == [] then []
    else if pieces[0] == "" then NonEmpty(pieces[1..])
    else [pieces[0]] + NonEmpty(pieces[1..])
  }

  /** The non-empty pieces of the header between semicolons. */
  function Segments(header: string): (segs: seq<string>)
    ensures forall i :: 0 <= i < |segs| ==> segs[i] != "" && ';' !in segs[i]
  {
    NonEmpty(Split(header, ';'))
  }

  /**
   * A segment's name and value: the trimmed segment split on `=`; the name
   * is the first piece and the value the second, `None` (undefined) when
   * the segment has no `=`.
   */
  function Entry(seg: string): (e: (string, Option<string>))
    ensures '=' !in e.0 && (e.1.Some? ==> '=' !in e.1.value)
  {
    var parts := Split(Trim(seg), '=');
    (parts[0], if |parts| > 1 then Some(parts[1]) else None)
  }

  /**
   * `deserialised[name] = value` for one entry: a segment without a name is
   * skipped, and so is the name `__proto__`, whose assignment goes to the
   * prototype setter, which ignores a value that is not an object.
   */
  function Admit(o: Obj<Option<string>>, e: (string, Option<string>)): Obj<Option<string>> {
    if e.0 == "" || e.0 == "__proto__" then o else Put(o, e.0, e.1)
  }

  /** Whether `all` can hold the name at all. */
  predicate Admissible(k: string) { k != "" && k != "__proto__" }

  /** The `forEach` over the segments, from `acc` on. */
  function Fold(acc: Obj<Option<string>>, segs: seq<string>): Obj<Option<string>>
    decreases segs
  {
    if segs == [] then acc else Fold(Admit(acc, Entry(segs[0])), segs[1..])
  }

  /** The `all` getter: `document.cookie` parsed into name → value (`None` for undefined). */
  function All(header: string): Obj<Option<string>> {
    Fold([], Segments(header))
  }

  // ---------------------------------------------------------- a write to the jar

  function Remove(jar: Jar, name: string): (r: Jar)
    ensures forall i :: 0 <= i < |r| ==> r[i].name != name && r[i] in jar
  {
    if jar == [] then []
    else if jar[0].name == name then Remove(jar[1..], name)
    else [jar[0]] + Remove(jar[1..], name)
  }

  function Upsert(jar: Jar, name: string, value: string): Jar {
    if jar == [] then [Cookie(name, value)]
    else if jar[0].name == name then [Cookie(name, value)] + jar[1..]
    else [jar[0]] + Upsert(jar[1..], name, value)
  }

  /**
   * The jar after `document.cookie = "name=value; ...; max-age=N"`: a
   * cookie that is already expired (N <= 0) removes the one of that name;
   * otherwise the cookie replaces the one of that name in its place, or
   * joins the jar at the end.
   */
  function Store(jar: Jar, name: string, value: string, maxAge: int): Jar {
    if maxAge <= 0 then Remove(jar, name) else Upsert(jar, name, value)
  }

  // ====================================================== the parser's rules

  /** A segment `name=value` gives that name and value. */
  lemma EntryOfPair(seg: string, name: string, value: string)
    requires Trim(seg) == name + "=" + value
    requires '=' !in name && '=' !in value
    ensures Entry(seg) == (name, Some(value))
  {
    SplitPair(name, '=', value);
  }

  /** Only the text between the first and the second `=` is the value. */
  lemma EntryOfTwoEquals(seg: string, name: string, value: string, more: string)
    requires Trim(seg) == name + "=" + value + "=" + more
    requires '=' !in name && '=' !in value
    ensures Entry(seg) == (name, Some(value))
  {
    var rest := value + "=" + more;
    var parts := [name] + ([value] + Split(more, '='));
    assert Split(Trim(seg), '=') == parts by {
      Assoc4(name + "=", value, "=", more);
      SplitAtFirst(name, '=', rest);
      SplitAtFirst(value, '=', more);
    }
    EntryOfParts(seg, parts);
  }

  /** The entry of a segment that splits into at least two pieces. */
  lemma EntryOfParts(seg: string, parts: seq<string>)
    requires Split(Trim(seg), '=') == parts && |parts| > 1
    ensures Entry(seg) == (parts[0], Some(parts[1]))
  {
  }

  /** A segment without `=` is a name whose value is undefined. */
  lemma EntryWithoutEquals(seg: string)
    requires '=' !in Trim(seg)
    ensures Entry(seg) == (Trim(seg), None)
  {
    SplitNoSeparator(Trim(seg), '=');
  }

  lemma {:induction false} FoldHasKey(acc: Obj<Option<string>>, segs: seq<string>, k: string)
    ensures HasKey(Fold(acc, segs), k) <==>
      HasKey(acc, k) || (Admissible(k) && exists i :: 0 <= i < |segs| && Entry(segs[i]).0 == k)
    decreases segs
  {
    if segs != [] {
      var e := Entry(segs[0]);
      FoldHasKey(Admit(acc, e), segs[1..], k);
      if Admissible(e.0) { HasKeyPut(acc, e.0, e.1, k); }
      assert forall i :: 1 <= i < |segs| ==> segs[i] == segs[1..][i - 1];
      if Admissible(k) && (exists i :: 0 <= i < |segs| && Entry(segs[i]).0 == k) {
        var i :| 0 <= i < |segs| && Entry(segs[i]).0 == k;
        if i > 0 { assert Entry(segs[1..][i - 1]).0 == k; }
      }
    }
  }

  lemma {:induction false} FoldUnique(acc: Obj<Option<string>>, segs: seq<string>)
    requires Unique(acc)
    ensures Unique(Fold(acc, segs))
    decreases segs
  {
    if segs != [] {
      var e := Entry(segs[0]);
      if Admissible(e.0) { UniquePut(acc, e.0, e.1); }
      FoldUnique(Admit(acc, e), segs[1..]);
    }
  }

  /** A name no segment carries keeps the value it had before the fold. */
  lemma {:induction false} FoldGetUntouched(acc: Obj<Option<string>>, segs: seq<string>, k: string)
    requires forall i :: 0 <= i < |segs| ==> Entry(segs[i]).0 != k
    ensures Get(Fold(acc, segs), k) == Get(acc, k)
    decreases segs
  {
    if segs != [] {
      var e := Entry(segs[0]);
      if Admissible(e.0) { GetPut(acc, e.0, e.1, k); }
      assert forall i :: 0 <= i < |segs[1..]| ==> segs[1..][i] == segs[i + 1];
      FoldGetUntouched(Admit(acc, e), segs[1..], k);
    }
  }

  /** The last segment that carries a name decides its value. */
  lemma {:induction false} FoldGetLast(acc: Obj<Option<string>>, segs: seq<string>, k: string, i: nat)
    requires Admissible(k)
    requires i < |segs| && Entry(segs[i]).0 == k
    requires forall j :: i < j < |segs| ==> Entry(segs[j]).0 != k
    ensures Get(Fold(acc, segs), k) == Some(Entry(segs[i]).1)
    decreases segs
  {
    var e := Entry(segs[0]);
    var rest := segs[1..];
    assert Fold(acc, segs) == Fold(Admit(acc, e), rest);
    if i == 0 {
      assert Get(Admit(acc, e), k) == Some(e.1) by { GetPut(acc, k, e.1, k); }
      assert forall j :: 0 <= j < |rest| ==> Entry(rest[j]).0 != k by {
        forall j | 0 <= j < |rest| ensures Entry(rest[j]).0 != k {
          assert rest[j] == segs[j + 1];
        }
      }
      FoldGetUntouched(Admit(acc, e), rest, k);
    } else {
      assert rest[i - 1] == segs[i];
      assert forall j :: i - 1 < j < |rest| ==> Entry(rest[j]).0 != k by {
        forall j | i - 1 < j < |rest| ensures Entry(rest[j]).0 != k {
          assert rest[j] == segs[j + 1];
        }
      }
      FoldGetLast(Admit(acc, e), rest, k, i - 1);
    }
  }

  /** `all` has a key exactly when it can hold the name and some segment carries it. */
  lemma AllHasKey(header: string, k: string)
    ensures HasKey(All(header), k) <==>
      Admissible(k) && exists i :: 0 <= i < |Segments(header)| && Entry(Segments(header)[i]).0 == k
  {
    FoldHasKey([], Segments(header), k);
  }

  /** Later duplicates overwrite earlier ones. */
  lemma AllLastWins(header: string, k: string, i: nat)
    requires Admissible(k)
    requires i < |Segments(header)| && Entry(Segments(header)[i]).0 == k
    requires forall j :: i < j < |Segments(header)| ==> Entry(Segments(header)[j]).0 != k
    ensures Get(All(header), k) == Some(Entry(Segments(header)[i]).1)
  {
    FoldGetLast([], Segments(header), k, i);
  }

  /** `all` is a plain object: each name once. */
  lemma AllUnique(header: string)
    ensures Unique(All(header))
  {
    FoldUnique([], Segments(header));
  }

  /** A folded accumulator, one step further. */
  lemma {:induction false} FoldSnoc(acc: Obj<Option<string>>, segs: seq<string>, seg: string)
    ensures Fold(acc, segs + [seg]) == Admit(Fold(acc, segs), Entry(seg))
    decreases segs
  {
    if segs != [] {
      assert (segs + [seg])[1..] == segs[1..] + [seg];
      FoldSnoc(Admit(acc, Entry(segs[0])), segs[1..], seg);
    }
  }

  /** One more segment of the `forEach`. */
  lemma FoldStep(acc: Obj<Option<string>>, segs: seq<string>, i: nat)
    requires i < |segs|
    ensures Fold(acc, segs[..i + 1]) == Admit(Fold(acc, segs[..i]), Entry(segs[i]))
  {
    assert segs[..i + 1] == segs[..i] + [segs[i]];
    FoldSnoc(acc, segs[..i], segs[i]);
  }

  // ================================================ reading back a well-formed jar

  lemma UriSafeNoSeparators(s: string)
    requires Uri.AllUriSafe(s)
    ensures ';' !in s && '=' !in s
    ensures s == [] || (!IsWhiteSpace(s[0]) && !IsWhiteSpace(s[|s| - 1]))
  {
    forall i | 0 <= i < |s| ensures s[i] != ';' && s[i] != '=' && !IsWhiteSpace(s[i]) {
      assert Uri.UriSafe(s[i]);
    }
  }

  lemma PairText(c: Cookie)
    requires c.name != "" && Uri.AllUriSafe(c.name) && Uri.AllUriSafe(c.value)
    ensures Pair(c) == c.name + "=" + c.value
    ensures ';' !in Pair(c) && Pair(c) != [] && Trimmed(Pair(c))
  {
    UriSafeNoSeparators(c.name);
    UriSafeNoSeparators(c.value);
    var p := c.name + "=" + c.value;
    assert p[0] == c.name[0];
    assert p[|p| - 1] == if c.value == [] then '=' else c.value[|c.value| - 1];
    forall i | 0 <= i < |p| ensures p[i] != ';' {
      if i < |c.name| { assert p[i] == c.name[i]; }
      else if i > |c.name| { assert p[i] == c.value[i - |c.name| - 1]; }
    }
  }

  lemma PairShape(c: Cookie)
    requires c.name != "" && Uri.AllUriSafe(c.name) && Uri.AllUriSafe(c.value)
    ensures ';' !in Pair(c) && Pair(c) != [] && Trimmed(Pair(c))
    ensures Entry(Pair(c)) == (c.name, Some(c.value))
    ensures Entry(" " + Pair(c)) == (c.name, Some(c.value))
  {
    PairText(c);
    UriSafeNoSeparators(c.name);
    UriSafeNoSeparators(c.value);
    var p := Pair(c);
    TrimOfTrimmed(p);
    TrimAfterSpace(p);
    EntryOfPair(p, c.name, c.value);
    EntryOfPair(" " + p, c.name, c.value);
  }

  /** The entries `all` reads from the rest of the header, after the first cookie. */
  function RestSegments(cs: Jar): seq<string> {
    seq(|cs|, i requires 0 <= i < |cs| => " " + Pair(cs[i]))
  }

  predicate CookiesWellFormed(cs: Jar) {
    forall i :: 0 <= i < |cs| ==>
      cs[i].name != "" && Uri.AllUriSafe(cs[i].name) && Uri.AllUriSafe(cs[i].value)
  }

  lemma SeparatorText(prefix: string, a: string, y: string)
    ensures prefix + ("; " + a + y) == prefix + [';'] + ((" " + a) + y)
  {
    assert "; " + a + y == [';'] + ((" " + a) + y);
  }

  lemma HeaderRestText(prefix: string, cs: Jar)
    requires cs != []
    ensures prefix + HeaderRest(cs) == prefix + [';'] + ((" " + Pair(cs[0])) + HeaderRest(cs[1..]))
  {
    SeparatorText(prefix, Pair(cs[0]), HeaderRest(cs[1..]));
  }

  lemma RestSegmentsCons(cs: Jar)
    requires cs != []
    ensures RestSegments(cs) == [" " + Pair(cs[0])] + RestSegments(cs[1..])
  {
    var r := [" " + Pair(cs[0])] + RestSegments(cs[1..]);
    forall i | 0 <= i < |cs| ensures RestSegments(cs)[i] == r[i] {
      if i > 0 { assert cs[1..][i - 1] == cs[i]; }
    }
  }

  lemma {:induction false} SplitHeaderRest(prefix: string, cs: Jar)
    requires ';' !in prefix
    requires CookiesWellFormed(cs)
    ensures Split(prefix + HeaderRest(cs), ';') == [prefix] + RestSegments(cs)
    decreases |cs|
  {
    if cs == [] {
      SplitNoSeparator(prefix, ';');
      assert prefix + HeaderRest(cs) == prefix;
    } else {
      PairShape(cs[0]);
      var next := " " + Pair(cs[0]);
      assert ';' !in next;
      HeaderRestText(prefix, cs);
      SplitAtFirst(prefix, ';', next + HeaderRest(cs[1..]));
      assert CookiesWellFormed(cs[1..]) by {
        forall i | 0 <= i < |cs[1..]| ensures cs[1..][i] == cs[i + 1] { }
      }
      SplitHeaderRest(next, cs[1..]);
      RestSegmentsCons(cs);
    }
  }

  lemma {:induction false} NonEmptyOfNonEmpty(pieces: seq<string>)
    requires forall i :: 0 <= i < |pieces| ==> pieces[i] != ""
    ensures NonEmpty(pieces) == pieces
  {
    if pieces != [] {
      assert forall i :: 0 <= i < |pieces[1..]| ==> pieces[1..][i] == pieces[i + 1];
      NonEmptyOfNonEmpty(pieces[1..]);
    }
  }

  /** For a well-formed jar, segment `i` of `document.cookie` reads back as cookie `i`. */
  lemma SegmentsOfRender(jar: Jar)
    requires WellFormed(jar)
    ensures |Segments(Header(jar))| == |jar|
    ensures forall i :: 0 <= i < |jar| ==> Entry(Segments(Header(jar))[i]) == (jar[i].name, Some(jar[i].value))
  {
    if jar == [] {
      assert Split("", ';') == [""];
    } else {
      PairShape(jar[0]);
      assert CookiesWellFormed(jar[1..]) by {
        forall i | 0 <= i < |jar[1..]| ensures jar[1..][i] == jar[i + 1] { }
      }
      SplitHeaderRest(Pair(jar[0]), jar[1..]);
      var pieces := [Pair(jar[0])] + RestSegments(jar[1..]);
      PiecesOfJar(jar, pieces);
      NonEmptyOfNonEmpty(pieces);
    }
  }

  lemma PiecesOfJar(jar: Jar, pieces: seq<string>)
    requires WellFormed(jar) && jar != []
    requires pieces == [Pair(jar[0])] + RestSegments(jar[1..])
    ensures |pieces| == |jar|
    ensures forall i :: 0 <= i < |pieces| ==> pieces[i] != "" && Entry(pieces[i]) == (jar[i].name, Some(jar[i].value))
  {
    forall i | 0 <= i < |jar|
      ensures pieces[i] != "" && Entry(pieces[i]) == (jar[i].name, Some(jar[i].value))
    {
      PairShape(jar[i]);
      if i > 0 {
        PieceAt(jar, pieces, i);
      }
    }
  }

  lemma PieceAt(jar: Jar, pieces: seq<string>, i: nat)
    requires jar != [] && 0 < i < |jar|
    requires pieces == [Pair(jar[0])] + RestSegments(jar[1..])
    ensures pieces[i] == " " + Pair(jar[i])
  {
    assert pieces[i] == RestSegments(jar[1..])[i - 1];
    assert jar[1..][i - 1] == jar[i];
  }

  /** Reading back a well-formed jar: `all` holds each cookie whose name it can hold, with its value. */
  lemma AllOfRender(jar: Jar, k: string)
    requires WellFormed(jar)
    ensures Get(All(Header(jar)), k) ==
      if Admissible(k) then
        match Lookup(jar, k) case None => None case Some(v) => Some(Some(v))
      else None
  {
    SegmentsOfRender(jar);
    var segs := Segments(Header(jar));
    AllHasKey(Header(jar), k);
    if Admissible(k) && Lookup(jar, k).Some? {
      var i :| 0 <= i < |jar| && jar[i].name == k;
      LookupAt(jar, i);
      AllLastWins(Header(jar), k, i);
    } else {
      assert !HasKey(All(Header(jar)), k);
    }
  }

  lemma {:induction false} LookupAt(jar: Jar, i: nat)
    requires WellFormed(jar) && i < |jar|
    ensures Lookup(jar, jar[i].name) == Some(jar[i].value)
  {
    if i > 0 {
      assert WellFormed(jar[1..]) by {
        assert forall j :: 0 <= j < |jar[1..]| ==> jar[1..][j] == jar[j + 1];
      }
      assert jar[1..][i - 1] == jar[i];
      LookupAt(jar[1..], i - 1);
    }
  }

  // ================================================================ writes

  lemma {:induction false} LookupRemove(jar: Jar, name: string, k: string)
    ensures Lookup(Remove(jar, name), k) == if k == name then None else Lookup(jar, k)
  {
    if jar != [] {
      LookupRemove(jar[1..], name, k);
    }
  }

  lemma {:induction false} LookupUpsert(jar: Jar, name: string, value: string, k: string)
    ensures Lookup(Upsert(jar, name, value), k) == if k == name then Some(value) else Lookup(jar, k)
  {
    if jar != [] && jar[0].name != name {
      LookupUpsert(jar[1..], name, value, k);
    }
  }

  /** After a write, the jar holds the written value under the name (none if it expired); nothing else changes. */
  lemma LookupStore(jar: Jar, name: string, value: string, maxAge: int, k: string)
    ensures Lookup(Store(jar, name, value, maxAge), k) ==
      if k != name then Lookup(jar, k)
      else if maxAge <= 0 then None
      else Some(value)
  {
    LookupRemove(jar, name, k);
    LookupUpsert(jar, name, value, k);
  }

  lemma {:induction false} RemoveWellFormed(jar: Jar, name: string)
    requires WellFormed(jar)
    ensures WellFormed(Remove(jar, name))
    ensures forall c :: c in Remove(jar, name) ==> c in jar
  {
    if jar != [] {
      assert WellFormed(jar[1..]) by {
        assert forall j :: 0 <= j < |jar[1..]| ==> jar[1..][j] == jar[j + 1];
      }
      RemoveWellFormed(jar[1..], name);
      var r := Remove(jar[1..], name);
      if jar[0].name != name {
        forall c | c in r ensures c.name != jar[0].name {
          var j :| 0 <= j < |jar[1..]| && jar[1..][j] == c;
          assert jar[j + 1] == c;
        }
      }
    }
  }

  /** Writing the same pair twice leaves the jar as the first write did. */
  lemma {:induction false} UpsertTwice(jar: Jar, name: string, value: string)
    ensures Upsert(Upsert(jar, name, value), name, value) == Upsert(jar, name, value)
  {
    if jar != [] && jar[0].name != name {
      UpsertTwice(jar[1..], name, value);
    }
  }

  lemma {:induction false} UpsertWellFormed(jar: Jar, name: string, value: string)
    requires WellFormed(jar)
    requires name != "" && Uri.AllUriSafe(name) && Uri.AllUriSafe(value)
    ensures WellFormed(Upsert(jar, name, value))
    ensures forall c :: c in Upsert(jar, name, value) ==> c in jar || c == Cookie(name, value)
  {
    if jar != [] {
      assert WellFormed(jar[1..]) by {
        assert forall j :: 0 <= j < |jar[1..]| ==> jar[1..][j] == jar[j + 1];
      }
      if jar[0].name == name {
        var r := [Cookie(name, value)] + jar[1..];
        forall i, j | 0 <= i < j < |r| ensures r[i].name != r[j].name {
          if i > 0 { assert r[i] == jar[i]; }
          assert r[j] == jar[j];
        }
      } else {
        UpsertWellFormed(jar[1..], name, value);
        var r := Upsert(jar[1..], name, value);
        forall c | c in r ensures c.name != jar[0].name {
          if c != Cookie(name, value) {
            var j :| 0 <= j < |jar[1..]| && jar[1..][j] == c;
            assert jar[j + 1] == c;
          }
        }
      }
    }
  }

  /** Writes of encoded names and values keep the jar well formed. */
  lemma StoreWellFormed(jar: Jar, name: string, value: string, maxAge: int)
    requires WellFormed(jar)
    requires name != "" && Uri.AllUriSafe(name) && Uri.AllUriSafe(value)
    ensures WellFormed(Store(jar, name, value, maxAge))
  {
    RemoveWellFormed(jar, name);
    UpsertWellFormed(jar, name, value);
  }
}
