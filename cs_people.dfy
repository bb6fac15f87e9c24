/**
 * The Princeton CS people directory (cs_people.py): filtering profile
 * records that lack a real photo, validating the feed parameters, deriving
 * the NetID and e-mail from an address item, and merging the per-category
 * feeds into one roster keyed by NetID.
 *
 * Fetching and parsing the directory's HTML is not modelled: the part of
 * `loadfeed` after validation is the oracle `scrape`, from a validated
 * category to the feed's records, or `None` when the request failed.
 */
module CsPeople {
  import opened Wrappers
  import opened Text

  /** A profile record: a dictionary from field name to text. */
  type Record = map<string, string>

  const CATEGORIES: seq<string> := ["faculty", "research", "researchinstructors", "restech", "admins", "grad"]
  const SUBTYPES: seq<string> := ["main", "emeritus", "associated"]

  /** The file-name fragment of the directory's placeholder portrait. */
  const PLACEHOLDER_PHOTO: string := "default.png"

  // =====================================================================
  // filter_pictureless
  // =====================================================================

  /**
   * The argument of `filter_pictureless`: a list of records, or a
   * dictionary, given by its values in iteration order (the function
   * discards its keys).
   */
  datatype People = PeopleList(records: seq<Record>) | PeopleDict(records: seq<Record>)

  /** The result: a list, a dictionary keyed by `net_id`, or the KeyError raised
      when a kept record has no `net_id` while building the dictionary. */
  datatype Filtered =
    | FilteredList(records: seq<Record>)
    | FilteredDict(byNetId: map<string, Record>)
    | NetIdKeyError

  /** The record links to a photo other than the placeholder. */
  predicate HasPhoto(p: Record) {
    "photo_link" in p && !Contains(p["photo_link"], PLACEHOLDER_PHOTO)
  }

  /** `a` is obtained from `b` by deleting elements, keeping the order. */
  predicate IsSubsequence<T(==)>(a: seq<T>, b: seq<T>)
    decreases |b|
  {
    a == [] || (b != [] && ((a[0] == b[0] && IsSubsequence(a[1..], b[1..])) || IsSubsequence(a, b[1..])))
  }

  /** The list comprehension: the records with a real photo, in input order. */
  function KeepPictured(ps: seq<Record>): (r: seq<Record>)
    ensures |r| <= |ps|
  {
    if ps == [] then []
    else if HasPhoto(ps[0]) then [ps[0]] + KeepPictured(ps[1..])
    else KeepPictured(ps[1..])
  }

  /**
   * A record is kept exactly when it has a real photo, and then as many
   * times as it occurs in the input.
   */
  lemma {:induction false} KeepPicturedExactly(ps: seq<Record>)
    ensures forall p :: p in KeepPictured(ps) <==> p in ps && HasPhoto(p)
    ensures forall p :: multiset(KeepPictured(ps))[p] == if HasPhoto(p) then multiset(ps)[p] else 0
  {
    if ps != [] {
      KeepPicturedExactly(ps[1..]);
      assert ps == [ps[0]] + ps[1..];
    }
  }

  lemma {:induction false} KeepPicturedIsSubsequence(ps: seq<Record>)
    ensures IsSubsequence(KeepPictured(ps), ps)
  {
    if ps != [] {
      KeepPicturedIsSubsequence(ps[1..]);
      var rest := KeepPictured(ps[1..]);
      if HasPhoto(ps[0]) {
        assert ([ps[0]] + rest)[1..] == rest;
      }
    }
  }

  /** Filtering a filtered list again changes nothing. */
  lemma {:induction false} KeepPicturedIdempotent(ps: seq<Record>)
    ensures KeepPictured(KeepPictured(ps)) == KeepPictured(ps)
  {
    if ps != [] {
      KeepPicturedIdempotent(ps[1..]);
      var rest := KeepPictured(ps[1..]);
      if HasPhoto(ps[0]) {
        assert ([ps[0]] + rest)[1..] == rest;
      }
    }
  }

  lemma {:induction false} KeepPicturedAppend(xs: seq<Record>, ys: seq<Record>)
    ensures KeepPictured(xs + ys) == KeepPictured(xs) + KeepPictured(ys)
  {
    if xs == [] {
      assert xs + ys == ys;
    } else {
      assert (xs + ys)[0] == xs[0];
      assert (xs + ys)[1..] == xs[1..] + ys;
      KeepPicturedAppend(xs[1..], ys);
      if HasPhoto(xs[0]) {
        assert [xs[0]] + (KeepPictured(xs[1..]) + KeepPictured(ys))
            == ([xs[0]] + KeepPictured(xs[1..])) + KeepPictured(ys);
      }
    }
  }

  /** Every record carries a `net_id` field. */
  predicate AllKeyed(ps: seq<Record>) {
    forall i :: 0 <= i < |ps| ==> "net_id" in ps[i]
  }

  /**
   * `{ p["net_id"]: p for p in ps }`: the records keyed by their `net_id`,
   * a later record replacing an earlier one with the same `net_id`.
   */
  function KeyByNetId(ps: seq<Record>): (m: map<string, Record>)
    requires AllKeyed(ps)
  {
    if ps == [] then map[]
    else
      var last := ps[|ps| - 1];
      KeyByNetId(ps[..|ps| - 1])[last["net_id"] := last]
  }

  /** Every key is its record's `net_id`, every record is an input record, and every input `net_id` is a key. */
  lemma {:induction false} KeyByNetIdSelfKeyed(ps: seq<Record>)
    requires AllKeyed(ps)
    ensures forall k :: k in KeyByNetId(ps) ==>
      KeyByNetId(ps)[k] in ps && "net_id" in KeyByNetId(ps)[k] && KeyByNetId(ps)[k]["net_id"] == k
    ensures forall i :: 0 <= i < |ps| ==> ps[i]["net_id"] in KeyByNetId(ps)
  {
    if ps != [] {
      var init := ps[..|ps| - 1];
      KeyByNetIdSelfKeyed(init);
      assert forall i :: 0 <= i < |init| ==> init[i] == ps[i];
    }
  }

  /** The last record with a given `net_id` is the one kept. */
  lemma {:induction false} KeyByNetIdLastWins(ps: seq<Record>, i: nat)
    requires AllKeyed(ps) && i < |ps|
    requires forall j :: i < j < |ps| ==> ps[j]["net_id"] != ps[i]["net_id"]
    ensures ps[i]["net_id"] in KeyByNetId(ps)
    ensures KeyByNetId(ps)[ps[i]["net_id"]] == ps[i]
  {
    KeyByNetIdSelfKeyed(ps);
    if i < |ps| - 1 {
      var init := ps[..|ps| - 1];
      assert init[i] == ps[i];
      KeyByNetIdLastWins(init, i);
    }
  }

  /** A concatenation has every `net_id` exactly when both parts do. */
  lemma AllKeyedAppend(xs: seq<Record>, ys: seq<Record>)
    ensures AllKeyed(xs + ys) <==> AllKeyed(xs) && AllKeyed(ys)
  {
    assert forall i :: 0 <= i < |xs| ==> (xs + ys)[i] == xs[i];
    assert forall i :: 0 <= i < |ys| ==> (xs + ys)[|xs| + i] == ys[i];
  }

  /** Keying one more record stores it under its `net_id`. */
  lemma KeyByNetIdSnoc(ps: seq<Record>, p: Record)
    requires AllKeyed(ps) && "net_id" in p
    ensures AllKeyed(ps + [p])
    ensures KeyByNetId(ps + [p]) == KeyByNetId(ps)[p["net_id"] := p]
  {
    assert (ps + [p])[..|ps|] == ps;
  }

  /** Updating the right side of a union is updating the union. */
  lemma UnionUpdate<K, V>(a: map<K, V>, b: map<K, V>, k: K, v: V)
    ensures (a + b)[k := v] == a + b[k := v]
  {
  }

  /** Keying a concatenation is the right-biased union of keying its parts. */
  lemma {:induction false} KeyByNetIdAppend(xs: seq<Record>, ys: seq<Record>)
    requires AllKeyed(xs) && AllKeyed(ys)
    ensures AllKeyed(xs + ys)
    ensures KeyByNetId(xs + ys) == KeyByNetId(xs) + KeyByNetId(ys)
  {
    AllKeyedAppend(xs, ys);
    if ys != [] {
      var init, last := ys[..|ys| - 1], ys[|ys| - 1];
      assert ys == init + [last];
      AllKeyedAppend(init, [last]);
      KeyByNetIdAppend(xs, init);
      AllKeyedAppend(xs, init);
      KeyByNetIdSnoc(xs + init, last);
      KeyByNetIdSnoc(init, last);
      assert xs + init + [last] == xs + ys;
      UnionUpdate(KeyByNetId(xs), KeyByNetId(init), last["net_id"], last);
    } else {
      assert xs + ys == xs;
    }
  }

  /** Whether the result is a dictionary: the flag if given, else the input's own shape. */
  function DictMode(people: People, asDict: Option<bool>): bool {
    match asDict
    case Some(b) => b
    case None => people.PeopleDict?
  }

  function FilterPictureless(people: People, asDict: Option<bool>): Filtered {
    var kept := KeepPictured(people.records);
    if !DictMode(people, asDict) then FilteredList(kept)
    else if AllKeyed(kept) then FilteredDict(KeyByNetId(kept))
    else NetIdKeyError
  }

  /** Without a flag, a dictionary gives a dictionary and a list gives a list. */
  lemma ShapeDefaultsToInput(people: People)
    ensures FilterPictureless(people, None).FilteredList? <==> people.PeopleList?
  {
  }

  /** An explicit flag decides the shape, whatever the input. */
  lemma FlagOverridesShape(people: People, asDict: bool)
    ensures FilterPictureless(people, Some(asDict)).FilteredList? <==> !asDict
  {
  }

  /**
   * In list mode the output is the input with exactly the records lacking a
   * real photo deleted, in input order.
   */
  lemma ListModeKeepsPicturedInOrder(people: People, asDict: Option<bool>)
    requires FilterPictureless(people, asDict).FilteredList?
    ensures var out := FilterPictureless(people, asDict).records;
      && IsSubsequence(out, people.records)
      && (forall p :: p in out <==> p in people.records && HasPhoto(p))
      && (forall p :: HasPhoto(p) ==> multiset(out)[p] == multiset(people.records)[p])
  {
    KeepPicturedIsSubsequence(people.records);
    KeepPicturedExactly(people.records);
  }

  /** Filtering the list output once more returns it unchanged. */
  lemma FilterIdempotent(people: People, asDict: Option<bool>)
    requires FilterPictureless(people, asDict).FilteredList?
    ensures var out := FilterPictureless(people, asDict);
      FilterPictureless(PeopleList(out.records), None) == out
  {
    KeepPicturedIdempotent(people.records);
  }

  /**
   * In dictionary mode every key is its record's `net_id`, every record
   * kept has a real photo and comes from the input, and the dictionary
   * fails exactly when a record with a real photo has no `net_id`.
   */
  lemma DictModeKeyedByNetId(people: People, asDict: Option<bool>)
    requires DictMode(people, asDict)
    ensures var out := FilterPictureless(people, asDict);
      && (out.NetIdKeyError? <==> exists p :: p in people.records && HasPhoto(p) && "net_id" !in p)
      && (out.FilteredDict? ==> forall k :: k in out.byNetId ==>
            out.byNetId[k] in people.records && HasPhoto(out.byNetId[k]) && out.byNetId[k]["net_id"] == k)
  {
    var kept := KeepPictured(people.records);
    KeepPicturedExactly(people.records);
    if AllKeyed(kept) {
      KeyByNetIdSelfKeyed(kept);
    } else {
      var i :| 0 <= i < |kept| && "net_id" !in kept[i];
      assert kept[i] in kept;
    }
  }

  /**
   * In dictionary mode, when two pictured records share a `net_id` the later
   * one is kept: a pictured record that no later pictured record shares its
   * `net_id` with is the one stored under it.
   */
  lemma DictModeLaterWins(people: People, asDict: Option<bool>, i: nat)
    requires FilterPictureless(people, asDict).FilteredDict?
    requires i < |people.records| && HasPhoto(people.records[i]) && "net_id" in people.records[i]
    requires forall j :: i < j < |people.records| && HasPhoto(people.records[j]) && "net_id" in people.records[j] ==>
               people.records[j]["net_id"] != people.records[i]["net_id"]
    ensures people.records[i]["net_id"] in FilterPictureless(people, asDict).byNetId
    ensures FilterPictureless(people, asDict).byNetId[people.records[i]["net_id"]] == people.records[i]
  {
    var ps, p := people.records, people.records[i];
    var k := p["net_id"];
    var before, after := KeepPictured(ps[..i]), KeepPictured(ps[i + 1..]);
    KeepPicturedSplitAt(ps, i);
    var kept := KeepPictured(ps);
    assert AllKeyed(before) by {
      forall j | 0 <= j < |before| ensures "net_id" in before[j] {
        assert before[j] == kept[j];
      }
    }
    assert AllKeyed(after) by {
      forall j | 0 <= j < |after| ensures "net_id" in after[j] {
        assert after[j] == kept[|before| + 1 + j];
      }
    }
    KeepPicturedExactly(ps[i + 1..]);
    forall q | q in after ensures q["net_id"] != k {
      var j :| 0 <= j < |ps[i + 1..]| && ps[i + 1..][j] == q;
      assert ps[i + 1 + j] == q;
    }
    KeyByNetIdSole(before, p, after);
  }

  /** Around a pictured record, the kept list is what is kept before it, the record, and what is kept after it. */
  lemma KeepPicturedSplitAt(ps: seq<Record>, i: nat)
    requires i < |ps| && HasPhoto(ps[i])
    ensures KeepPictured(ps) == KeepPictured(ps[..i]) + [ps[i]] + KeepPictured(ps[i + 1..])
  {
    var tail := [ps[i]] + ps[i + 1..];
    assert ps == ps[..i] + ps[i..];
    assert ps[i..] == tail;
    KeepPicturedAppend(ps[..i], tail);
    assert tail[0] == ps[i] && tail[1..] == ps[i + 1..];
    assert KeepPictured(tail) == [ps[i]] + KeepPictured(ps[i + 1..]);
  }

  /** A record whose `net_id` no later record shares is the one keyed under it. */
  lemma KeyByNetIdSole(before: seq<Record>, p: Record, after: seq<Record>)
    requires AllKeyed(before) && "net_id" in p && AllKeyed(after)
    requires forall q :: q in after ==> q["net_id"] != p["net_id"]
    ensures AllKeyed(before + [p] + after)
    ensures p["net_id"] in KeyByNetId(before + [p] + after)
    ensures KeyByNetId(before + [p] + after)[p["net_id"]] == p
  {
    var k := p["net_id"];
    KeyByNetIdAppend(before, [p]);
    KeyByNetIdAppend(before + [p], after);
    assert KeyByNetId([p]) == map[k := p] by {
      assert [p][..0] == [];
    }
    KeyByNetIdSelfKeyed(after);
    assert k !in KeyByNetId(after);
  }

  // =====================================================================
  // loadfeed: parameter validation
  // =====================================================================

  /** `s.lower().strip()`. */
  function Normalize(s: string): string {
    Strip(Lower(s))
  }

  /**
   * The category and subtype checks that `loadfeed` makes before any
   * request: the normalised category to fetch, or `None`.
   */
  function ValidateFeed(category: string, subtype: Option<string>): (r: Option<string>)
    ensures r.Some? ==> r.value == Normalize(category) && r.value in CATEGORIES
  {
    var c := Normalize(category);
    if c !in CATEGORIES then None
    else if c == "faculty" && subtype.Some? && Normalize(subtype.value) !in SUBTYPES then None
    else Some(c)
  }

  /** `loadfeed` before its HTML is parsed: rejected parameters give `None` and no request. */
  function LoadFeed(category: string, subtype: Option<string>, scrape: string -> Option<seq<Record>>): Option<seq<Record>> {
    match ValidateFeed(category, subtype)
    case None => None
    case Some(c) => scrape(c)
  }

  /** Validation accepts exactly a known category, and a known subtype when the category is faculty. */
  lemma ValidateFeedAccepts(category: string, subtype: Option<string>)
    ensures ValidateFeed(category, subtype).Some? <==>
      && Normalize(category) in CATEGORIES
      && (Normalize(category) == "faculty" && subtype.Some? ==> Normalize(subtype.value) in SUBTYPES)
  {
  }

  /** A rejected request yields `None`, whatever the directory would have answered. */
  lemma RejectedFeedMakesNoRequest(category: string, subtype: Option<string>, scrape: string -> Option<seq<Record>>)
    requires ValidateFeed(category, subtype).None?
    ensures LoadFeed(category, subtype, scrape).None?
  {
  }

  /** A category that passes validation unchanged is requested as it is. */
  lemma LoadFeedOfValidCategory(category: string, scrape: string -> Option<seq<Record>>)
    requires ValidateFeed(category, None) == Some(category)
    ensures LoadFeed(category, None, scrape) == scrape(category)
  {
  }

  /** The subtype is never looked at unless the category is faculty. */
  lemma SubtypeOnlyCheckedForFaculty(category: string, s1: Option<string>, s2: Option<string>)
    requires Normalize(category) != "faculty"
    ensures ValidateFeed(category, s1) == ValidateFeed(category, s2)
  {
  }

  /** A string without upper-case letters or surrounding whitespace is its own normal form. */
  lemma {:induction false} NormalizeFixesNormal(s: string)
    requires forall i :: 0 <= i < |s| ==> !IsUpper(s[i])
    requires s == [] || (!IsSpace(s[0]) && !IsSpace(s[|s| - 1]))
    ensures Normalize(s) == s
  {
    assert Lower(s) == s;
    assert TrimLeft(s, IsSpace) == s;
    assert TrimRight(s, IsSpace) == s;
  }

  /** Normalising twice is normalising once. */
  lemma NormalizeIdempotent(s: string)
    ensures Normalize(Normalize(s)) == Normalize(s)
  {
    LowerIdempotent(s);
    StripKeepsLowerCase(Lower(s));
    NormalizeFixesNormal(Normalize(s));
  }

  /** Stripping a string without capitals leaves a string without capitals. */
  lemma StripKeepsLowerCase(s: string)
    requires forall k :: 0 <= k < |s| ==> !IsUpper(s[k])
    ensures forall k :: 0 <= k < |Strip(s)| ==> !IsUpper(Strip(s)[k])
  {
    TrimKeepsSlice(s, IsSpace);
  }

  /** Validation is insensitive to the case and surrounding whitespace of both parameters. */
  lemma ValidateFeedNormalForm(category: string, subtype: Option<string>)
    ensures ValidateFeed(category, subtype) == ValidateFeed(Normalize(category), subtype)
    ensures subtype.Some? ==>
      ValidateFeed(category, subtype) == ValidateFeed(category, Some(Normalize(subtype.value)))
  {
    NormalizeIdempotent(category);
    if subtype.Some? {
      NormalizeIdempotent(subtype.value);
    }
  }

  /** Each built-in category passes validation unchanged, so `loadfeeds` always makes its requests. */
  lemma CategoriesPassValidation(i: nat)
    requires i < |CATEGORIES|
    ensures ValidateFeed(CATEGORIES[i], None) == Some(CATEGORIES[i])
  {
    CategoryIsSmallLetters(i);
    NormalizeFixesNormal(CATEGORIES[i]);
  }

  /** Every built-in category is written in small letters. */
  lemma CategoryIsSmallLetters(i: nat)
    requires i < |CATEGORIES|
    ensures forall k :: 0 <= k < |CATEGORIES[i]| ==> 'a' <= CATEGORIES[i][k] <= 'z'
  {
    var c := CATEGORIES[i];
    if i == 0 {
      assert c == "faculty";
    } else if i == 1 {
      assert c == "research";
    } else if i == 2 {
      assert c == "researchinstructors";
    } else if i == 3 {
      assert c == "restech";
    } else if i == 4 {
      assert c == "admins";
    } else {
      assert c == "grad";
    }
  }

  // =====================================================================
  // loadfeed: NetID and e-mail from an address item
  // =====================================================================

  /** What an envelope address item yields; `None` of ParseAddress is the IndexError. */
  datatype Address = Address(netId: string, domain: string, email: string)

  predicate IsCloseParen(c: char) {
    c == ')'
  }

  /**
   * The NetID is the word characters before the first `@`; the domain is
   * the text between the first and the second `@`, stripped of whitespace
   * and then of `)`. Text without `@` has no second piece.
   */
  function ParseAddress(text: string): (r: Option<Address>)
    ensures r.Some? <==> '@' in text
    ensures r.Some? ==> (forall c :: c in r.value.netId ==> IsWordChar(c))
    ensures r.Some? ==> r.value.email == r.value.netId + "@" + r.value.domain
    ensures r.Some? ==> '@' !in r.value.domain
    ensures r.Some? && r.value.domain != [] ==>
      r.value.domain[0] != ')' && r.value.domain[|r.value.domain| - 1] != ')'
  {
    var pieces := Split(text, '@');
    SplitHasSecondPiece(text, '@');
    if |pieces| < 2 then None
    else
      var username := KeepWordChars(pieces[0]);
      TrimKeepsOut(pieces[1], IsSpace, '@');
      TrimKeepsOut(Strip(pieces[1]), IsCloseParen, '@');
      var domain := Trim(Strip(pieces[1]), IsCloseParen);
      Some(Address(username, domain, username + "@" + domain))
  }

  lemma {:induction false} SplitAfterFreePrefix(local: string, rest: string, sep: char)
    requires sep !in local
    ensures Split(local + [sep] + rest, sep) == [local] + Split(rest, sep)
  {
    if local == [] {
      assert ([] + [sep] + rest)[1..] == rest;
    } else {
      assert (local + [sep] + rest)[1..] == local[1..] + [sep] + rest;
      SplitAfterFreePrefix(local[1..], rest, sep);
      assert [local[0]] + local[1..] == local;
    }
  }

  /**
   * For text `local@rest` with no `@` in `local`, the NetID is the word
   * characters of `local` and the domain comes from `rest` up to its first `@`.
   */
  lemma AddressParts(local: string, rest: string)
    requires '@' !in local
    ensures var d := Trim(Strip(Split(rest, '@')[0]), IsCloseParen);
      ParseAddress(local + "@" + rest) == Some(Address(KeepWordChars(local), d, KeepWordChars(local) + "@" + d))
  {
    var text := local + "@" + rest;
    SplitAfterFreePrefix(local, rest, '@');
    var pieces := Split(text, '@');
    assert pieces == [local] + Split(rest, '@');
    assert pieces[0] == local && pieces[1] == Split(rest, '@')[0];
  }

  lemma {:induction false} SplitWithoutSeparator(s: string, sep: char)
    requires sep !in s
    ensures Split(s, sep) == [s]
  {
    if s != [] {
      SplitWithoutSeparator(s[1..], sep);
      assert [s[0]] + s[1..] == s;
    }
  }

  /**
   * Whitespace enclosed by the `)` survives: the domain is stripped of
   * whitespace before it is stripped of `)`, so `local@d )` gives the
   * domain `d ` with a trailing space (for instance "ab@cs.edu )" gives
   * "cs.edu ").
   */
  lemma DomainKeepsSpaceBeforeParen(local: string, d: string)
    requires '@' !in local && '@' !in d
    requires d != [] && !IsSpace(d[0]) && d[0] != ')'
    ensures ParseAddress(local + "@" + (d + " )")).Some?
    ensures ParseAddress(local + "@" + (d + " )")).value.domain == d + " "
  {
    var rest := d + " )";
    assert '@' !in rest by {
      assert forall k :: 0 <= k < |d| ==> rest[k] == d[k];
    }
    AddressParts(local, rest);
    SplitWithoutSeparator(rest, '@');
    StripsToSpace(d);
    var dom := Trim(Strip(Split(rest, '@')[0]), IsCloseParen);
    assert dom == d + " ";
  }

  lemma StripsToSpace(d: string)
    requires d != [] && !IsSpace(d[0]) && d[0] != ')'
    ensures Trim(Strip(d + " )"), IsCloseParen) == d + " "
  {
    var rest := d + " )";
    assert rest[0] == d[0] && rest[|rest| - 1] == ')';
    assert TrimLeft(rest, IsSpace) == rest;
    assert TrimRight(rest, IsSpace) == rest;
    assert TrimLeft(rest, IsCloseParen) == rest;
    assert rest[..|rest| - 1] == d + " ";
    assert TrimRight(d + " ", IsCloseParen) == d + " ";
  }

  /** Lines 99-100: the record gets `email` and `net_id`; no other field changes. */
  function ApplyAddress(record: Record, text: string): (r: Option<Record>)
    ensures r.Some? <==> '@' in text
    ensures r.Some? ==> "net_id" in r.value && "email" in r.value
    ensures r.Some? ==> forall c :: c in r.value["net_id"] ==> IsWordChar(c)
    ensures r.Some? ==> r.value.Keys == record.Keys + {"net_id", "email"}
    ensures r.Some? ==> forall k :: k in record && k != "net_id" && k != "email" ==> r.value[k] == record[k]
    ensures r.Some? ==> r.value["net_id"] == ParseAddress(text).value.netId
    ensures r.Some? ==> r.value["email"] == r.value["net_id"] + "@" + ParseAddress(text).value.domain
  {
    match ParseAddress(text)
    case None => None
    case Some(a) => Some(record["email" := a.email]["net_id" := a.netId])
  }

  // =====================================================================
  // loadfeeds
  // =====================================================================

  /** The roster, or the exception that ends `loadfeeds`: iterating a missing
      feed (TypeError) or a record without `net_id` (KeyError). */
  datatype Roster =
    | Roster(people: map<string, Record>)
    | FeedFailed(category: string)
    | NetIdMissing(category: string)

  /** The categories' feeds merged, in order, into `acc`; the first failure ends the merge. */
  function MergeFeeds(cats: seq<string>, feed: string -> Option<seq<Record>>, acc: map<string, Record>): Roster {
    if cats == [] then Roster(acc)
    else match feed(cats[0])
      case None => FeedFailed(cats[0])
      case Some(rs) =>
        if AllKeyed(rs) then MergeFeeds(cats[1..], feed, acc + KeyByNetId(rs)) else NetIdMissing(cats[0])
  }

  /** Some record of category `c`'s feed has `net_id` `k`. */
  predicate Holds(feed: string -> Option<seq<Record>>, c: string, k: string) {
    feed(c).Some? && exists p :: p in feed(c).value && "net_id" in p && p["net_id"] == k
  }

  /** The merge succeeds exactly when every feed arrived and all its records have a `net_id`. */
  lemma {:induction false} MergeFeedsSucceeds(cats: seq<string>, feed: string -> Option<seq<Record>>, acc: map<string, Record>)
    ensures MergeFeeds(cats, feed, acc).Roster? <==>
      forall i :: 0 <= i < |cats| ==> feed(cats[i]).Some? && AllKeyed(feed(cats[i]).value)
    ensures MergeFeeds(cats, feed, acc).FeedFailed? ==>
      MergeFeeds(cats, feed, acc).category in cats && feed(MergeFeeds(cats, feed, acc).category).None?
    ensures MergeFeeds(cats, feed, acc).NetIdMissing? ==>
      var c := MergeFeeds(cats, feed, acc).category;
      c in cats && feed(c).Some? && !AllKeyed(feed(c).value)
  {
    if cats != [] && feed(cats[0]).Some? && AllKeyed(feed(cats[0]).value) {
      MergeFeedsSucceeds(cats[1..], feed, acc + KeyByNetId(feed(cats[0]).value));
      assert forall i :: 1 <= i < |cats| ==> cats[i] == cats[1..][i - 1];
    }
  }

  /**
   * Category `cats[i]` is where the merge stopped with `r`: its feed is
   * missing (TypeError) or has a record without `net_id` (KeyError), as `r`
   * says, and every earlier category's feed arrived with all its records keyed.
   */
  predicate FailsFirstAt(cats: seq<string>, feed: string -> Option<seq<Record>>, i: nat, r: Roster)
    requires !r.Roster?
  {
    && i < |cats| && cats[i] == r.category
    && (r.FeedFailed? <==> feed(cats[i]).None?)
    && (r.NetIdMissing? <==> feed(cats[i]).Some? && !AllKeyed(feed(cats[i]).value))
    && forall j :: 0 <= j < i ==> feed(cats[j]).Some? && AllKeyed(feed(cats[j]).value)
  }

  /** A failed merge names the first category, in order, whose feed fails. */
  lemma {:induction false} MergeFeedsFirstFailure(cats: seq<string>, feed: string -> Option<seq<Record>>, acc: map<string, Record>)
    requires !MergeFeeds(cats, feed, acc).Roster?
    ensures exists i: nat :: FailsFirstAt(cats, feed, i, MergeFeeds(cats, feed, acc))
  {
    var r := MergeFeeds(cats, feed, acc);
    if feed(cats[0]).None? || !AllKeyed(feed(cats[0]).value) {
      assert FailsFirstAt(cats, feed, 0, r);
    } else {
      var rest := cats[1..];
      MergeFeedsFirstFailure(rest, feed, acc + KeyByNetId(feed(cats[0]).value));
      var i: nat :| FailsFirstAt(rest, feed, i, r);
      assert rest[i] == cats[i + 1];
      forall j | 0 <= j < i + 1 ensures feed(cats[j]).Some? && AllKeyed(feed(cats[j]).value) {
        if j > 0 {
          assert cats[j] == rest[j - 1];
        }
      }
      assert FailsFirstAt(cats, feed, i + 1, r);
    }
  }

  lemma KeyByNetIdKeys(ps: seq<Record>, k: string)
    requires AllKeyed(ps)
    ensures k in KeyByNetId(ps) <==> exists p :: p in ps && "net_id" in p && p["net_id"] == k
  {
    if exists p :: p in ps && "net_id" in p && p["net_id"] == k {
      var p :| p in ps && "net_id" in p && p["net_id"] == k;
      var i :| 0 <= i < |ps| && ps[i] == p;
    }
  }

  /** The roster's NetIDs are those already present and those of every feed's records. */
  lemma {:induction false} MergeFeedsKeys(cats: seq<string>, feed: string -> Option<seq<Record>>, acc: map<string, Record>, k: string)
    requires MergeFeeds(cats, feed, acc).Roster?
    ensures k in MergeFeeds(cats, feed, acc).people <==>
      k in acc || exists i :: 0 <= i < |cats| && Holds(feed, cats[i], k)
  {
    if cats != [] {
      var rs := feed(cats[0]).value;
      KeyByNetIdKeys(rs, k);
      MergeFeedsKeys(cats[1..], feed, acc + KeyByNetId(rs), k);
      if exists i :: 0 <= i < |cats| && Holds(feed, cats[i], k) {
        var i :| 0 <= i < |cats| && Holds(feed, cats[i], k);
        if i > 0 {
          assert cats[1..][i - 1] == cats[i];
        }
      }
      if exists i :: 0 <= i < |cats[1..]| && Holds(feed, cats[1..][i], k) {
        var i :| 0 <= i < |cats[1..]| && Holds(feed, cats[1..][i], k);
        assert cats[i + 1] == cats[1..][i];
      }
    }
  }

  /**
   * On a collision the later category wins: when category `cats[i]` holds
   * NetID `k` and no later category does, the roster's record for `k` is
   * the one that category's own feed keeps.
   */
  lemma {:induction false} MergeFeedsLaterWins(cats: seq<string>, feed: string -> Option<seq<Record>>, acc: map<string, Record>, i: nat, k: string)
    requires MergeFeeds(cats, feed, acc).Roster?
    requires i < |cats| && Holds(feed, cats[i], k)
    requires forall j :: i < j < |cats| ==> !Holds(feed, cats[j], k)
    ensures feed(cats[i]).Some? && AllKeyed(feed(cats[i]).value)
    ensures k in KeyByNetId(feed(cats[i]).value) && k in MergeFeeds(cats, feed, acc).people
    ensures MergeFeeds(cats, feed, acc).people[k] == KeyByNetId(feed(cats[i]).value)[k]
  {
    MergeFeedsSucceeds(cats, feed, acc);
    var rs := feed(cats[0]).value;
    var acc' := acc + KeyByNetId(rs);
    KeyByNetIdKeys(feed(cats[i]).value, k);
    if i > 0 {
      assert cats[1..][i - 1] == cats[i];
      forall j | i - 1 < j < |cats[1..]| ensures !Holds(feed, cats[1..][j], k) {
        assert cats[1..][j] == cats[j + 1];
      }
      MergeFeedsLaterWins(cats[1..], feed, acc', i - 1, k);
    } else {
      MergeFeedsUntouched(cats[1..], feed, acc', k);
    }
  }

  /** A NetID that no remaining category holds keeps the value it already had. */
  lemma {:induction false} MergeFeedsUntouched(cats: seq<string>, feed: string -> Option<seq<Record>>, acc: map<string, Record>, k: string)
    requires MergeFeeds(cats, feed, acc).Roster?
    requires k in acc
    requires forall j :: 0 <= j < |cats| ==> !Holds(feed, cats[j], k)
    ensures k in MergeFeeds(cats, feed, acc).people && MergeFeeds(cats, feed, acc).people[k] == acc[k]
  {
    if cats != [] {
      var rs := feed(cats[0]).value;
      KeyByNetIdKeys(rs, k);
      assert !Holds(feed, cats[0], k);
      forall j | 0 <= j < |cats[1..]| ensures !Holds(feed, cats[1..][j], k) {
        assert cats[1..][j] == cats[j + 1];
      }
      MergeFeedsUntouched(cats[1..], feed, acc + KeyByNetId(rs), k);
    }
  }

  /**
   * The inner loop of `loadfeeds`: one feed's records stored in `acc`
   * under their `net_id`, in order; `None` is the KeyError of a record
   * without `net_id`.
   */
  method AddFeed(records: seq<Record>, acc: map<string, Record>) returns (r: Option<map<string, Record>>)
    ensures r == if AllKeyed(records) then Some(acc + KeyByNetId(records)) else None
  {
    var allPeople := acc;
    for j := 0 to |records|
      invariant AllKeyed(records[..j])
      invariant allPeople == acc + KeyByNetId(records[..j])
    {
      var record := records[j];
      if "net_id" !in record {
        return None;
      }
      assert records[..j + 1] == records[..j] + [record];
      KeyByNetIdSnoc(records[..j], record);
      UnionUpdate(acc, KeyByNetId(records[..j]), record["net_id"], record);
      allPeople := allPeople[record["net_id"] := record];
    }
    assert records[..|records|] == records;
    return Some(allPeople);
  }

  /**
   * The loop of `loadfeeds` over a list of categories: every category's
   * feed, in order, folded record by record into one dictionary keyed by
   * `net_id`. The argument `loadfeed` is `loadfeed` itself, called with the
   * category alone.
   */
  method MergeCategories(cats: seq<string>, loadfeed: string -> Option<seq<Record>>) returns (r: Roster)
    ensures r == MergeFeeds(cats, loadfeed, map[])
  {
    var allPeople: map<string, Record> := map[];
    for i := 0 to |cats|
      invariant MergeFeeds(cats, loadfeed, map[]) == MergeFeeds(cats[i..], loadfeed, allPeople)
    {
      var category := cats[i];
      assert cats[i..][0] == category && cats[i..][1..] == cats[i + 1..];
      var people := loadfeed(category);
      if people.None? {
        return FeedFailed(category);
      }
      var merged := AddFeed(people.value, allPeople);
      if merged.None? {
        return NetIdMissing(category);
      }
      allPeople := merged.value;
    }
    return Roster(allPeople);
  }

  /** `loadfeeds`: the merge over CATEGORIES, in that order. */
  method LoadFeeds(loadfeed: string -> Option<seq<Record>>) returns (r: Roster)
    ensures r == MergeFeeds(CATEGORIES, loadfeed, map[])
  {
    r := MergeCategories(CATEGORIES, loadfeed);
  }
}
