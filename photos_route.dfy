/** app/api/photos/route.ts: the locations the map shows, filtered by the
    query, each with the photos whose URL could be refreshed. The store
    holds no URLs; they are resolved per request by `GetFreshUrls`. */
module PhotosRoute {
  import opened Wrappers
  import opened Types
  import opened Seqs
  import opened JsBuiltins
  import opened PhotoSource
  import opened Storage

  // ---------------------------------------------------------------------------
  // parseInt
  // ---------------------------------------------------------------------------

  /** The value of a digit in the radixes up to 36, if `c` is one. */
  function DigitValue(c: char): (r: Option<nat>)
    ensures r.Some? ==> r.value < 36
    ensures '0' <= c <= '9' ==> r == Some((c as int - '0' as int) as nat)
  {
    if '0' <= c <= '9' then Some((c as int - '0' as int) as nat)
    else if 'a' <= c <= 'z' then Some((c as int - 'a' as int + 10) as nat)
    else if 'A' <= c <= 'Z' then Some((c as int - 'A' as int + 10) as nat)
    else None
  }

  predicate IsDigit(c: char, radix: nat) {
    DigitValue(c).Some? && DigitValue(c).value < radix
  }

  /** The length of the longest prefix of `s` made of digits. */
  function DigitRun(s: string, radix: nat): (n: nat)
    ensures n <= |s| && forall k :: 0 <= k < n ==> IsDigit(s[k], radix)
    ensures n < |s| ==> !IsDigit(s[n], radix)
  {
    if s == [] || !IsDigit(s[0], radix) then 0 else 1 + DigitRun(s[1..], radix)
  }

  /** The number the digits `s` denote, most significant first. */
  function RadixValue(s: string, radix: nat): nat
    requires forall k :: 0 <= k < |s| ==> IsDigit(s[k], radix)
  {
    if s == [] then 0
    else
      assert IsDigit(s[|s| - 1], radix);
      Shift(RadixValue(s[..|s| - 1], radix), radix, DigitValue(s[|s| - 1]).value)
  }

  /** One more digit `d` after the digits worth `v`. */
  function Shift(v: nat, radix: nat, d: nat): nat {
    v * radix + d
  }

  /** The digits after the sign: `0x`/`0X` selects radix 16, and the
      longest run of digits that follows is the value; with no digit the
      result is NaN (`None`). */
  function ParseUnsigned(u: string): (r: Option<nat>)
    ensures r.Some? ==> |u| > 0 && '0' <= u[0] <= '9'
  {
    var hex := |u| >= 2 && u[0] == '0' && (u[1] == 'x' || u[1] == 'X');
    var radix := if hex then 16 else 10;
    var body := if hex then u[2..] else u;
    var n := DigitRun(body, radix);
    if n == 0 then None else Some(RadixValue(body[..n], radix))
  }

  /** At `a` starts a decimal digit, or a sign followed by one. */
  predicate SignedDigitAt(s: string, a: nat) {
    (a < |s| && '0' <= s[a] <= '9')
    || (a + 1 < |s| && (s[a] == '-' || s[a] == '+') && '0' <= s[a + 1] <= '9')
  }

  /** One optional sign, then the digits. */
  function ParseSigned(t: string): (r: Option<int>)
    ensures r.Some? ==> SignedDigitAt(t, 0)
    ensures r.Some? && r.value < 0 ==> t[0] == '-'
  {
    var negative := |t| > 0 && t[0] == '-';
    var u := if |t| > 0 && (t[0] == '-' || t[0] == '+') then t[1..] else t;
    match ParseUnsigned(u)
    case None => None
    case Some(v) => var x: int := v; Some(if negative then -x else x)
  }

  /** `parseInt(s)` without a radix: leading whitespace is skipped, then
      the signed number is read. */
  function ParseInt(s: string): (r: Option<int>)
    ensures r.Some? ==> SignedDigitAt(s, LeadingSpace(s))
    ensures r.Some? && r.value < 0 ==> s[LeadingSpace(s)] == '-'
  {
    ParseSigned(s[LeadingSpace(s)..])
  }

  /** The decimal digits of `n` denote `n`. */
  lemma {:induction false} NatDigitsValue(n: nat)
    ensures forall k :: 0 <= k < |NatDigits(n)| ==> IsDigit(NatDigits(n)[k], 10)
    ensures RadixValue(NatDigits(n), 10) == n
    decreases n
  {
    var d := NatDigits(n);
    if n >= 10 {
      NatDigitsValue(n / 10);
      assert d[..|d| - 1] == NatDigits(n / 10);
    }
  }

  /** `parseInt` reads back the decimal text of any integer, and ignores
      whatever follows it when that starts with neither a digit nor a
      letter (so `"2023"`, `"2023-06"` and `"2023 "` all give 2023; a
      letter could turn `"0"` into a hexadecimal prefix). */
  lemma {:induction false} ParseIntDecimal(n: int, rest: string)
    requires rest == [] || DigitValue(rest[0]).None?
    ensures ParseInt(DecimalString(n) + rest) == Some(n)
  {
    if n < 0 {
      NegativeDecimal(n, rest);
    } else {
      NonNegativeDecimal(n, rest);
    }
  }

  lemma {:induction false} NonNegativeDecimal(n: int, rest: string)
    requires n >= 0 && (rest == [] || DigitValue(rest[0]).None?)
    ensures ParseInt(DecimalString(n) + rest) == Some(n)
  {
    var u := NatDigits(n) + rest;
    assert DecimalString(n) + rest == u;
    DecimalUnsigned(n, rest);
    assert u[0] != '-' && u[0] != '+';
    NoLeadingSpace(u);
  }

  lemma {:induction false} NegativeDecimal(n: int, rest: string)
    requires n < 0 && (rest == [] || DigitValue(rest[0]).None?)
    ensures ParseInt(DecimalString(n) + rest) == Some(n)
  {
    var m: nat := -n;
    DecimalUnsigned(m, rest);
    NegativeSign(NatDigits(m) + rest, m);
    NegativeText(n, rest);
  }

  lemma {:induction false} NegativeText(n: int, rest: string)
    requires n < 0
    ensures DecimalString(n) + rest == "-" + (NatDigits(-n) + rest)
  {
  }

  /** Text that starts with no whitespace is read from its first character. */
  lemma {:induction false} NoLeadingSpace(s: string)
    requires s != [] && !IsWhitespace(s[0])
    ensures ParseInt(s) == ParseSigned(s)
  {
    assert LeadingSpace(s) == 0;
    assert s[0..] == s;
  }

  /** A minus sign negates what the digits after it read as. */
  lemma {:induction false} NegativeSign(u: string, m: nat)
    requires ParseUnsigned(u) == Some(m)
    ensures ParseInt("-" + u) == Some(-(m as int))
  {
    var t := "-" + u;
    assert t[0] == '-' && t[1..] == u;
    NoLeadingSpace(t);
    assert ParseSigned(t) == Some(-(m as int));
  }

  /** The decimal digits of `m`, followed by a non-digit or by nothing, read
      back as `m`. */
  lemma {:induction false} DecimalUnsigned(m: nat, rest: string)
    requires rest == [] || DigitValue(rest[0]).None?
    ensures ParseUnsigned(NatDigits(m) + rest) == Some(m)
  {
    var digits := NatDigits(m);
    var u := digits + rest;
    NatDigitsValue(m);
    assert !(|u| >= 2 && u[0] == '0' && (u[1] == 'x' || u[1] == 'X')) by {
      if |digits| >= 2 {
        assert u[1] == digits[1];
      } else if |u| >= 2 && u[0] == '0' {
        assert u[1] == rest[0];
      }
    }
    DigitRunPrefix(digits, rest);
    assert u[..|digits|] == digits;
  }

  lemma {:induction false} DigitRunPrefix(digits: string, rest: string)
    requires forall k :: 0 <= k < |digits| ==> IsDigit(digits[k], 10)
    requires rest == [] || !('0' <= rest[0] <= '9')
    ensures DigitRun(digits + rest, 10) == |digits|
    decreases |digits|
  {
    if digits != [] {
      assert (digits + rest)[1..] == digits[1..] + rest;
      DigitRunPrefix(digits[1..], rest);
    } else {
      assert digits + rest == rest;
    }
  }

  // ---------------------------------------------------------------------------
  // Filtering the stored locations
  // ---------------------------------------------------------------------------

  /** The query string: each parameter absent (`null`) or its text. */
  datatype Query = Query(year: Option<string>, locationId: Option<string>)

  /** A parameter takes effect only when it is a non-empty string. */
  predicate Given(p: Option<string>) {
    p.Some? && p.value != ""
  }

  /** `l.year <= parseInt(year)`; every comparison with NaN is false. */
  predicate UpToYear(year: Option<int>, l: StoredLocation) {
    year.Some? && l.year <= year.value
  }

  /** Whether a stored location passes both filters of the query. */
  predicate Selected(q: Query, l: StoredLocation) {
    (Given(q.year) ==> UpToYear(ParseInt(q.year.value), l))
    && (Given(q.locationId) ==> l.id == q.locationId.value)
  }

  /** The year filter, then the location filter, as the route applies them. */
  function FilterLocations(ls: seq<StoredLocation>, q: Query): (r: seq<StoredLocation>)
    ensures |r| <= |ls|
    ensures forall l :: l in r <==> l in ls && Selected(q, l)
  {
    var byYear := if Given(q.year) then
        var year := ParseInt(q.year.value);
        Filter((l: StoredLocation) => UpToYear(year, l), ls)
      else ls;
    if Given(q.locationId) then Filter((l: StoredLocation) => l.id == q.locationId.value, byYear)
    else byYear
  }

  /** Filtering keeps exactly the selected locations, in stored order: the
      two filters are one filter by `Selected`. */
  lemma {:induction false} FilterLocationsSelected(ls: seq<StoredLocation>, q: Query)
    ensures FilterLocations(ls, q) == Filter((l: StoredLocation) => Selected(q, l), ls)
  {
    var sel := (l: StoredLocation) => Selected(q, l);
    var year := if Given(q.year) then ParseInt(q.year.value) else None;
    var byYear := (l: StoredLocation) => UpToYear(year, l);
    var byId := (l: StoredLocation) => l.id == q.locationId.GetOr("");
    if Given(q.year) && Given(q.locationId) {
      FilterFilter(byId, byYear, sel, ls);
    } else if Given(q.year) {
      FilterSame(byYear, sel, ls);
    } else if Given(q.locationId) {
      FilterSame(byId, sel, ls);
    } else {
      FilterAll(sel, ls);
    }
  }

  /** The ids whose URLs are requested: those of the filtered locations, in order. */
  function RequestedIds(ls: seq<StoredLocation>): (r: seq<string>)
    ensures forall id :: id in r <==> exists l :: l in ls && id in l.photoIds
  {
    var r := Flatten(seq(|ls|, i requires 0 <= i < |ls| => ls[i].photoIds));
    assert forall id :: id in r <==> exists l :: l in ls && id in l.photoIds by {
      forall id ensures id in r <==> exists l :: l in ls && id in l.photoIds {
        if exists l :: l in ls && id in l.photoIds {
          var l :| l in ls && id in l.photoIds;
          var i :| 0 <= i < |ls| && ls[i] == l;
          assert id in seq(|ls|, i requires 0 <= i < |ls| => ls[i].photoIds)[i];
        }
      }
    }
    r
  }

  // ---------------------------------------------------------------------------
  // Joining photos
  // ---------------------------------------------------------------------------

  /** `urlMap.get(id) || undefined`: a missing or empty URL is no URL. */
  function UrlOf(urls: map<string, string>, id: string): (r: Option<string>)
    ensures r.Some? <==> id in urls && urls[id] != ""
    ensures r.Some? ==> r.value == urls[id]
  {
    if id in urls && urls[id] != "" then Some(urls[id]) else None
  }

  /** `captions[id] || storedPhoto.caption`: an empty override falls back. */
  function CaptionOf(captions: map<string, string>, id: string, stored: StoredPhoto): (r: string)
    ensures id in captions && captions[id] != "" ==> r == captions[id]
    ensures !(id in captions && captions[id] != "") ==> r == stored.caption
  {
    if id in captions && captions[id] != "" then captions[id] else stored.caption
  }

  /** The photo built for one id, or `null` when no stored photo has it. */
  function Candidate(id: string, allPhotos: seq<StoredPhoto>, captions: map<string, string>,
                     urls: map<string, string>): (r: Option<Photo>)
    ensures r.None? <==> forall p :: p in allPhotos ==> p.id != id
    ensures r.Some? ==> r.value.id == id && r.value.url == UrlOf(urls, id)
  {
    match FindFirst((p: StoredPhoto) => p.id == id, allPhotos)
    case None => None
    case Some(stored) => Some(Photo(id, UrlOf(urls, id), CaptionOf(captions, id, stored), stored.takenAt))
  }

  /** The id yields a photo that is neither `null` nor without a URL. */
  predicate Loadable(id: string, allPhotos: seq<StoredPhoto>, captions: map<string, string>, urls: map<string, string>) {
    var c := Candidate(id, allPhotos, captions, urls);
    c.Some? && c.value.url.Some?
  }

  /** The photos of one location: one per loadable id, in id order. */
  function LoadablePhotos(ids: seq<string>, allPhotos: seq<StoredPhoto>, captions: map<string, string>,
                          urls: map<string, string>): (r: seq<Photo>)
    ensures |r| <= |ids|
    ensures forall p :: p in r ==>
      p.id in ids && Loadable(p.id, allPhotos, captions, urls) && Candidate(p.id, allPhotos, captions, urls) == Some(p)
    ensures forall id :: id in ids && Loadable(id, allPhotos, captions, urls) ==>
      Candidate(id, allPhotos, captions, urls).value in r
  {
    if ids == [] then []
    else
      var rest := LoadablePhotos(ids[1..], allPhotos, captions, urls);
      assert forall id :: id in ids[1..] ==> id in ids;
      assert forall id :: id in ids ==> id == ids[0] || id in ids[1..];
      var c := Candidate(ids[0], allPhotos, captions, urls);
      (if Loadable(ids[0], allPhotos, captions, urls) then [c.value] else []) + rest
  }

  /** The client record of a stored location: `coords` is `[lat, lng]`. */
  function Assemble(l: StoredLocation, photos: seq<Photo>): (r: Location)
    ensures r.id == l.id && r.name == l.name && r.coords == (l.lat, l.lng)
    ensures r.ltype == l.ltype && r.year == l.year && r.photos == photos
  {
    Location(l.id, l.name, (l.lat, l.lng), l.ltype, l.year, photos)
  }

  /** The response locations: each filtered location with its loadable
      photos, dropping those left with none. */
  function ResponseLocations(ls: seq<StoredLocation>, allPhotos: seq<StoredPhoto>, captions: map<string, string>,
                             urls: map<string, string>): (r: seq<Location>)
    ensures |r| <= |ls|
  {
    if ls == [] then []
    else
      var photos := LoadablePhotos(ls[0].photoIds, allPhotos, captions, urls);
      (if |photos| > 0 then [Assemble(ls[0], photos)] else []) + ResponseLocations(ls[1..], allPhotos, captions, urls)
  }

  /** `meta?.years || []`: an empty list is truthy, so only a missing
      record gives the default. */
  function YearsOf(meta: Option<JourneyMeta>): (r: seq<int>)
    ensures meta.None? ==> r == []
    ensures meta.Some? ==> r == meta.value.years
  {
    if meta.Some? then meta.value.years else []
  }

  /** `meta?.lastSynced || 'never'`. */
  function LastSyncedOf(meta: Option<JourneyMeta>): (r: string)
    ensures r != ""
    ensures meta.Some? && meta.value.lastSynced != "" ==> r == meta.value.lastSynced
    ensures !(meta.Some? && meta.value.lastSynced != "") ==> r == "never"
  {
    if meta.Some? && meta.value.lastSynced != "" then meta.value.lastSynced else "never"
  }

  /** The body of the answer for store `s`, query `q` and resolved `urls`. */
  function Response(s: StoreState, q: Query, urls: map<string, string>): (r: PhotosApiResponse)
    ensures |r.locations| <= |FilterLocations(LocationsOf(s), q)|
    ensures s.meta.None? ==> r.years == []
    ensures s.meta.Some? ==> r.years == s.meta.value.years
    ensures r.lastSynced != ""
  {
    PhotosApiResponse(
      ResponseLocations(FilterLocations(LocationsOf(s), q), PhotosOf(s), CaptionsOf(s), urls),
      YearsOf(s.meta),
      LastSyncedOf(s.meta))
  }

  /** The ids whose URLs the request resolves. */
  function QueryIds(s: StoreState, q: Query): seq<string> {
    RequestedIds(FilterLocations(LocationsOf(s), q))
  }

  /** GET /api/photos: reads the store, filters, resolves the URLs of the
      filtered locations' photos (`answers` answers the batches) and
      builds the answer. The store is not changed. */
  method Get(store: KvStore, q: Query, answers: seq<BatchResponse>) returns (response: PhotosApiResponse)
    requires |answers| >= NumBatches(|QueryIds(store.State(), q)|)
    ensures var ids := QueryIds(store.State(), q);
      response == Response(store.State(), q, MapOf(AllEntries(answers[..NumBatches(|ids|)])))
  {
    var locations := LocationsOf(store.State());
    var allPhotos := PhotosOf(store.State());
    var captions := CaptionsOf(store.State());
    var meta := store.meta;
    locations := FilterLocations(locations, q);
    var photoIds := RequestedIds(locations);
    var urlMap, _ := GetFreshUrls(photoIds, answers);
    response := PhotosApiResponse(ResponseLocations(locations, allPhotos, captions, urlMap), YearsOf(meta), LastSyncedOf(meta));
  }

  // ---------------------------------------------------------------------------
  // What the answer promises
  // ---------------------------------------------------------------------------

  /** Every answered location comes from a selected stored location, keeps
      its fields, and lists only that location's loadable photos, at least one. */
  lemma {:induction false} ResponseSound(ls: seq<StoredLocation>, allPhotos: seq<StoredPhoto>,
                                         captions: map<string, string>, urls: map<string, string>, r: Location)
    requires r in ResponseLocations(ls, allPhotos, captions, urls)
    ensures exists l :: l in ls && r == Assemble(l, LoadablePhotos(l.photoIds, allPhotos, captions, urls))
    ensures |r.photos| > 0
    decreases |ls|
  {
    var photos := LoadablePhotos(ls[0].photoIds, allPhotos, captions, urls);
    var rest := ResponseLocations(ls[1..], allPhotos, captions, urls);
    if |photos| > 0 && r == Assemble(ls[0], photos) {
      assert ls[0] in ls;
    } else {
      assert r in rest;
      ResponseSound(ls[1..], allPhotos, captions, urls, r);
      var l :| l in ls[1..] && r == Assemble(l, LoadablePhotos(l.photoIds, allPhotos, captions, urls));
      assert l in ls;
    }
  }

  /** Every stored location with at least one loadable photo is answered. */
  lemma {:induction false} ResponseComplete(ls: seq<StoredLocation>, allPhotos: seq<StoredPhoto>,
                                            captions: map<string, string>, urls: map<string, string>,
                                            l: StoredLocation, id: string)
    requires l in ls && id in l.photoIds && Loadable(id, allPhotos, captions, urls)
    ensures Assemble(l, LoadablePhotos(l.photoIds, allPhotos, captions, urls)) in ResponseLocations(ls, allPhotos, captions, urls)
    decreases |ls|
  {
    var photos := LoadablePhotos(ls[0].photoIds, allPhotos, captions, urls);
    var rest := ResponseLocations(ls[1..], allPhotos, captions, urls);
    assert ResponseLocations(ls, allPhotos, captions, urls) ==
      (if |photos| > 0 then [Assemble(ls[0], photos)] else []) + rest;
    if l != ls[0] {
      ResponseComplete(ls[1..], allPhotos, captions, urls, l, id);
    } else {
      assert Candidate(id, allPhotos, captions, urls).value in photos;
    }
  }

  /** An answered photo: a stored photo with that id exists, the URL is
      the resolved non-empty one, the caption is the non-empty override or
      else the stored caption, and the date is the stored one. */
  lemma {:induction false} LoadablePhotoFields(id: string, allPhotos: seq<StoredPhoto>, captions: map<string, string>,
                            urls: map<string, string>)
    requires Loadable(id, allPhotos, captions, urls)
    ensures var p := Candidate(id, allPhotos, captions, urls).value;
      p.id == id && id in urls && urls[id] != "" && p.url == Some(urls[id])
      && exists k ::
           FirstSatisfying((sp: StoredPhoto) => sp.id == id, allPhotos, k)
           && p.takenAt == allPhotos[k].takenAt
           && p.caption == (if id in captions && captions[id] != "" then captions[id] else allPhotos[k].caption)
  {
    var found := FindFirst((sp: StoredPhoto) => sp.id == id, allPhotos);
    var k :| FirstSatisfying((sp: StoredPhoto) => sp.id == id, allPhotos, k) && allPhotos[k] == found.value;
  }

  /** Photos keep the order of `photoIds`: the join distributes over
      concatenation of the id list. */
  lemma {:induction false} LoadablePhotosAppend(a: seq<string>, b: seq<string>, allPhotos: seq<StoredPhoto>,
                                                captions: map<string, string>, urls: map<string, string>)
    ensures LoadablePhotos(a + b, allPhotos, captions, urls)
         == LoadablePhotos(a, allPhotos, captions, urls) + LoadablePhotos(b, allPhotos, captions, urls)
  {
    if a == [] {
      assert a + b == b;
    } else {
      var ab := a + b;
      assert ab[0] == a[0] && ab[1..] == a[1..] + b;
      LoadablePhotosAppend(a[1..], b, allPhotos, captions, urls);
      var head := if Loadable(a[0], allPhotos, captions, urls) then [Candidate(a[0], allPhotos, captions, urls).value] else [];
      AppendAssoc(head, LoadablePhotos(a[1..], allPhotos, captions, urls), LoadablePhotos(b, allPhotos, captions, urls));
    }
  }

  /** Locations keep their stored order: the assembly distributes over
      concatenation of the location list. */
  lemma {:induction false} ResponseAppend(a: seq<StoredLocation>, b: seq<StoredLocation>, allPhotos: seq<StoredPhoto>,
                                          captions: map<string, string>, urls: map<string, string>)
    ensures ResponseLocations(a + b, allPhotos, captions, urls)
         == ResponseLocations(a, allPhotos, captions, urls) + ResponseLocations(b, allPhotos, captions, urls)
  {
    if a == [] {
      assert a + b == b;
    } else {
      var ab := a + b;
      assert ab[0] == a[0] && ab[1..] == a[1..] + b;
      ResponseAppend(a[1..], b, allPhotos, captions, urls);
      var photos := LoadablePhotos(a[0].photoIds, allPhotos, captions, urls);
      var head := if |photos| > 0 then [Assemble(a[0], photos)] else [];
      AppendAssoc(head, ResponseLocations(a[1..], allPhotos, captions, urls), ResponseLocations(b, allPhotos, captions, urls));
    }
  }

  /** A year that `parseInt` cannot read (NaN) keeps no location. */
  lemma {:induction false} UnreadableYearEmpty(s: StoreState, q: Query, urls: map<string, string>)
    requires Given(q.year) && ParseInt(q.year.value).None?
    ensures Response(s, q, urls).locations == []
  {
    var ls := LocationsOf(s);
    FilterLocationsSelected(ls, q);
    var kept := FilterLocations(ls, q);
    assert forall l :: l !in kept;
    NoMemberEmpty(kept);
  }

  /** With no sync yet the answer lists no years and reports `never`. */
  lemma {:induction false} NeverSynced(s: StoreState, q: Query, urls: map<string, string>)
    requires s.meta.None?
    ensures Response(s, q, urls).years == [] && Response(s, q, urls).lastSynced == "never"
  {
  }

  /** The URLs requested are those of exactly the photos the selected
      locations list. */
  lemma {:induction false} RequestedIdsSelected(s: StoreState, q: Query, id: string)
    ensures id in QueryIds(s, q) <==> exists l :: l in LocationsOf(s) && Selected(q, l) && id in l.photoIds
  {
    FilterLocationsSelected(LocationsOf(s), q);
  }
}
