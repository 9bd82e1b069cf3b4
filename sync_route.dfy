/** app/api/sync/route.ts: the nightly sync. It lists the album, builds
    one stored photo per media item, groups the photos by the place named
    in their caption (in first-seen order), builds one stored location per
    place and writes photos, locations and metadata to the store.

    The clock is the parameter `now` (every `new Date().toISOString()` of
    one request reads it), and `yearOf` stands for
    `new Date(takenAt).getFullYear()`. */
module SyncRoute {
  import opened Wrappers
  import opened Types
  import opened Seqs
  import opened JsBuiltins
  import opened CaptionParser
  import opened PhotoSource
  import opened Storage

  /** The group label of photos without a place. */
  const Unlocated: string := "unlocated"

  // ---------------------------------------------------------------------------
  // Request checks
  // ---------------------------------------------------------------------------

  /** The header value `Bearer ${CRON_SECRET}`; an unset secret is
      rendered by the template literal as `undefined`. */
  function ExpectedHeader(secret: Option<string>): string {
    "Bearer " + (if secret.Some? then secret.value else "undefined")
  }

  /** The request passes when its Authorization header (absent = `null`)
      is exactly the expected value: `Bearer <secret>` with a configured
      secret, the literal `Bearer undefined` with none; a missing header
      never passes. */
  function Authorized(header: Option<string>, secret: Option<string>): (r: bool)
    ensures header.None? ==> !r
    ensures secret.Some? ==> (r <==> header == Some("Bearer " + secret.value))
    ensures secret.None? ==> (r <==> header == Some("Bearer undefined"))
  {
    assert ExpectedHeader(None) == "Bearer undefined";
    header == Some(ExpectedHeader(secret))
  }

  /** HTTP whitespace: tab, line feed, carriage return and space. */
  predicate HttpSpace(c: char) {
    c == ' ' || c == '\t' || c == '\n' || c == '\r'
  }

  /** `s` without its leading HTTP whitespace. */
  function DropLeading(s: string): (r: string)
    ensures |r| <= |s| && r == s[|s| - |r|..]
    ensures r == [] || !HttpSpace(r[0])
    ensures forall k :: 0 <= k < |s| - |r| ==> HttpSpace(s[k])
  {
    if s != [] && HttpSpace(s[0]) then DropLeading(s[1..]) else s
  }

  /** `s` without its trailing HTTP whitespace. */
  function DropTrailing(s: string): (r: string)
    ensures |r| <= |s| && r == s[..|r|]
    ensures r == [] || !HttpSpace(r[|r| - 1])
    ensures forall k :: |r| <= k < |s| ==> HttpSpace(s[k])
  {
    if s != [] && HttpSpace(s[|s| - 1]) then DropTrailing(s[..|s| - 1]) else s
  }

  /** The normalisation of a header value by the Fetch `Headers` class:
      HTTP whitespace is stripped from both ends. */
  function HttpTrim(s: string): (r: string)
    ensures r == [] || (!HttpSpace(r[0]) && !HttpSpace(r[|r| - 1]))
  {
    DropTrailing(DropLeading(s))
  }

  /** A header value `new Request` accepts: every character fits in a
      byte, and the normalised value holds no NUL, CR or LF. */
  predicate HeaderValueOk(v: string) {
    (forall k :: 0 <= k < |v| ==> v[k] as int <= 0xFF)
    && (forall c :: c in HttpTrim(v) ==> c != '\0' && c != '\n' && c != '\r')
  }

  /** The value `headers.get` returns for a header set to `v`; `None`
      when `new Request` throws on it. */
  function HeaderValue(v: string): (r: Option<string>)
    ensures r.None? <==> !HeaderValueOk(v)
    ensures r.Some? ==> r.value == HttpTrim(v)
  {
    if HeaderValueOk(v) then Some(HttpTrim(v)) else None
  }

  /** A value that starts with a non-space keeps its start. */
  lemma {:induction false} DropLeadingNone(s: string)
    requires s != [] && !HttpSpace(s[0])
    ensures DropLeading(s) == s
  {
  }

  /** The development GET passes the check exactly when `new Request`
      accepts the header and the secret is non-empty and ends in a
      character other than HTTP whitespace, which the normalisation
      would strip. */
  lemma {:induction false} DevelopmentHeaderPasses(secret: string)
    ensures Authorized(HeaderValue(ExpectedHeader(Some(secret))), Some(secret)) <==>
      HeaderValueOk(ExpectedHeader(Some(secret))) && secret != [] && !HttpSpace(secret[|secret| - 1])
  {
    var v := ExpectedHeader(Some(secret));
    assert v[0] == 'B';
    DropLeadingNone(v);
    assert HttpTrim(v) == DropTrailing(v);
    if secret != [] && !HttpSpace(secret[|secret| - 1]) {
      assert v[|v| - 1] == secret[|secret| - 1];
      assert DropTrailing(v) == v;
    } else {
      assert HttpSpace(v[|v| - 1]);
      assert |DropTrailing(v)| < |v|;
    }
  }

  /** With an empty secret the header becomes `Bearer`, which fails. */
  lemma {:induction false} EmptySecretRejected()
    ensures HeaderValue(ExpectedHeader(Some(""))) == Some("Bearer")
    ensures !Authorized(HeaderValue(ExpectedHeader(Some(""))), Some(""))
  {
    var v := ExpectedHeader(Some(""));
    assert v == "Bearer ";
    DropLeadingNone(v);
    assert DropTrailing(v) == DropTrailing(v[..6]);
    assert v[..6] == "Bearer";
    assert DropTrailing("Bearer") == "Bearer";
    DevelopmentHeaderPasses("");
  }

  /** A secret with a character above U+00FF makes `new Request` throw. */
  lemma {:induction false} WideSecretThrows(secret: string, k: int)
    requires 0 <= k < |secret| && secret[k] as int > 0xFF
    ensures HeaderValue(ExpectedHeader(Some(secret))).None?
  {
    var v := ExpectedHeader(Some(secret));
    assert v[7 + k] == secret[k];
  }

  /** A received header value is already normalised, so it never ends in
      HTTP whitespace (`HttpTrim`); with an empty secret or one ending in
      HTTP whitespace no such value, and so no request, ever passes. */
  lemma {:induction false} UntrimmedSecretLocksPost(secret: string, v: string)
    requires secret == [] || HttpSpace(secret[|secret| - 1])
    requires v == [] || !HttpSpace(v[|v| - 1])
    ensures !Authorized(Some(v), Some(secret))
  {
    if v == ExpectedHeader(Some(secret)) {
      assert HttpSpace(v[|v| - 1]);
    }
  }

  /** `!albumId`: an unset or empty album id is missing. */
  predicate AlbumConfigured(albumId: Option<string>) {
    albumId.Some? && albumId.value != ""
  }

  // ---------------------------------------------------------------------------
  // Building the photo list
  // ---------------------------------------------------------------------------

  /** `mediaMetadata?.creationTime || now`. */
  function TakenAt(item: GoogleMediaItem, now: string): (r: string)
    ensures item.mediaMetadata.Some? && item.mediaMetadata.value.creationTime != "" ==>
      r == item.mediaMetadata.value.creationTime
    ensures !(item.mediaMetadata.Some? && item.mediaMetadata.value.creationTime != "") ==> r == now
  {
    if item.mediaMetadata.Some? && item.mediaMetadata.value.creationTime != "" then item.mediaMetadata.value.creationTime
    else now
  }

  /** `contributorInfo?.displayName`. */
  function ContributorOf(item: GoogleMediaItem): Option<string> {
    if item.contributorInfo.Some? then Some(item.contributorInfo.value.displayName) else None
  }

  /** `userCaptions[id] || parsed.caption || ''`: an empty override counts as none. */
  function CaptionFor(id: string, userCaptions: map<string, string>, parsed: string): (r: string)
    ensures id in userCaptions && userCaptions[id] != "" ==> r == userCaptions[id]
    ensures !(id in userCaptions && userCaptions[id] != "") ==> r == parsed
  {
    if id in userCaptions && userCaptions[id] != "" then userCaptions[id]
    else if parsed != "" then parsed
    else ""
  }

  /** `parsed.location || 'unlocated'`. */
  function LabelOf(parsed: ParsedCaption): (r: string)
    ensures r != ""
    ensures parsed.location.Some? && parsed.location.value != "" ==> r == parsed.location.value
    ensures !(parsed.location.Some? && parsed.location.value != "") ==> r == Unlocated
  {
    if parsed.location.Some? && parsed.location.value != "" then parsed.location.value else Unlocated
  }

  /** What one media item contributes: its stored photo and the label of
      the group it joins. */
  datatype Entry = Entry(photo: StoredPhoto, key: string)

  function EntryOf(item: GoogleMediaItem, userCaptions: map<string, string>, now: string): (e: Entry)
    ensures e.photo.id == item.id && e.photo.lat == 0.0 && e.photo.lng == 0.0
    ensures e.photo.takenAt == TakenAt(item, now) && e.photo.contributor == ContributorOf(item)
    ensures e.photo.caption == CaptionFor(item.id, userCaptions, ParsePhotoCaption(item.description).caption)
    ensures e.key == LabelOf(ParsePhotoCaption(item.description))
  {
    var parsed := ParsePhotoCaption(item.description);
    Entry(StoredPhoto(item.id, CaptionFor(item.id, userCaptions, parsed.caption), TakenAt(item, now), 0.0, 0.0, ContributorOf(item)),
      LabelOf(parsed))
  }

  function Entries(items: seq<GoogleMediaItem>, userCaptions: map<string, string>, now: string): (r: seq<Entry>)
    ensures |r| == |items| && forall i :: 0 <= i < |items| ==> r[i] == EntryOf(items[i], userCaptions, now)
  {
    seq(|items|, i requires 0 <= i < |items| => EntryOf(items[i], userCaptions, now))
  }

  /** The photo list: one record per item, in item order. */
  function Photos(es: seq<Entry>): (r: seq<StoredPhoto>)
    ensures |r| == |es| && forall i :: 0 <= i < |es| ==> r[i] == es[i].photo
  {
    seq(|es|, i requires 0 <= i < |es| => es[i].photo)
  }

  /** The labels, in item order. */
  function Keys(es: seq<Entry>): (r: seq<string>)
    ensures |r| == |es| && forall i :: 0 <= i < |es| ==> r[i] == es[i].key
  {
    seq(|es|, i requires 0 <= i < |es| => es[i].key)
  }

  /** The photos of the group `key`, in item order. */
  function Group(es: seq<Entry>, key: string): seq<StoredPhoto> {
    if es == [] then []
    else Group(es[..|es| - 1], key) + (if es[|es| - 1].key == key then [es[|es| - 1].photo] else [])
  }

  /** The photo list of a sync holds one record per item, in item order,
      at (0, 0), with the override caption when it is non-empty and the
      parsed caption otherwise. */
  lemma {:induction false} PhotosShape(items: seq<GoogleMediaItem>, userCaptions: map<string, string>, now: string, i: int)
    requires 0 <= i < |items|
    ensures var p := Photos(Entries(items, userCaptions, now))[i];
      p.id == items[i].id && p.lat == 0.0 && p.lng == 0.0
      && (items[i].id in userCaptions && userCaptions[items[i].id] != "" ==> p.caption == userCaptions[items[i].id])
      && (!(items[i].id in userCaptions && userCaptions[items[i].id] != "") ==>
            p.caption == ParsePhotoCaption(items[i].description).caption)
  {
  }

  /** A photo is in group `key` exactly when its entry has that label. */
  lemma {:induction false} GroupMember(es: seq<Entry>, key: string, p: StoredPhoto)
    ensures p in Group(es, key) <==> exists i :: 0 <= i < |es| && es[i].key == key && es[i].photo == p
    decreases |es|
  {
    if es != [] {
      var init := es[..|es| - 1];
      GroupMember(init, key, p);
      if exists i :: 0 <= i < |init| && init[i].key == key && init[i].photo == p {
        var i :| 0 <= i < |init| && init[i].key == key && init[i].photo == p;
        assert es[i] == init[i];
      }
      if exists i :: 0 <= i < |es| && es[i].key == key && es[i].photo == p {
        var i :| 0 <= i < |es| && es[i].key == key && es[i].photo == p;
        if i < |init| {
          assert init[i] == es[i];
        }
      }
    }
  }

  /** A label that occurs has a non-empty group. */
  lemma {:induction false} GroupNonEmpty(es: seq<Entry>, key: string)
    requires key in Keys(es)
    ensures |Group(es, key)| > 0
    decreases |es|
  {
    var init := es[..|es| - 1];
    if es[|es| - 1].key != key {
      var i :| 0 <= i < |es| && Keys(es)[i] == key;
      assert Keys(init)[i] == key;
      GroupNonEmpty(init, key);
    }
  }

  /** A group takes at most one photo per entry. */
  lemma {:induction false} GroupBound(es: seq<Entry>, key: string)
    ensures |Group(es, key)| <= |es|
    decreases |es|
  {
    if es != [] {
      GroupBound(es[..|es| - 1], key);
    }
  }

  /** A label that does not occur has an empty group. */
  lemma {:induction false} GroupEmpty(es: seq<Entry>, key: string)
    requires key !in Keys(es)
    ensures Group(es, key) == []
    decreases |es|
  {
    if es != [] {
      var init := es[..|es| - 1];
      assert es[|es| - 1].key == Keys(es)[|es| - 1];
      assert forall k :: k in Keys(init) ==> k in Keys(es) by {
        forall k | k in Keys(init) ensures k in Keys(es) {
          var i :| 0 <= i < |init| && Keys(init)[i] == k;
          assert Keys(es)[i] == k;
        }
      }
      GroupEmpty(init, key);
    }
  }

  /** The first photo of a group is the photo of the first entry with that label. */
  lemma {:induction false} GroupFirst(es: seq<Entry>, key: string)
    requires key in Keys(es)
    ensures |Group(es, key)| > 0 && Group(es, key)[0] == es[FirstIndex(Keys(es), key)].photo
    decreases |es|
  {
    var n := |es| - 1;
    var init := es[..n];
    var ks := Keys(es);
    assert ks[..n] == Keys(init);
    GroupNonEmpty(es, key);
    if key in Keys(init) {
      GroupFirst(init, key);
      FirstIndexPrefix(ks, n, key);
    } else {
      GroupEmpty(init, key);
      assert ks == ks[..n] + [ks[n]];
    }
  }

  // ---------------------------------------------------------------------------
  // Building the locations
  // ---------------------------------------------------------------------------

  /** `c` is one of `[a-z0-9]`. */
  predicate SlugChar(c: char) {
    ('a' <= c <= 'z') || ('0' <= c <= '9')
  }

  /** What one lower-cased character becomes in the slug. The pattern has
      no `u` flag, so it replaces UTF-16 code units: a character above
      U+FFFF is two units and becomes two dashes. */
  function SlugPiece(c: char): (r: string)
    ensures |r| == Utf16Units(c)
    ensures SlugChar(c) ==> r == [c]
    ensures !SlugChar(c) ==> forall k :: 0 <= k < |r| ==> r[k] == '-'
  {
    if SlugChar(c) then [c] else if c as int >= 0x1_0000 then "--" else "-"
  }

  /** The slug of an already lower-cased name, piece by piece. */
  function SlugOfLower(lower: string): (r: string)
    ensures |r| == Utf16Length(lower)
    ensures forall k :: 0 <= k < |r| ==> SlugChar(r[k]) || r[k] == '-'
  {
    if lower == [] then []
    else SlugOfLower(lower[..|lower| - 1]) + SlugPiece(lower[|lower| - 1])
  }

  /** `name.toLowerCase().replace(/[^a-z0-9]/g, '-')`: every code unit
      outside `[a-z0-9]` becomes one `-`; runs are not collapsed. */
  function Slug(name: string): (r: string)
    ensures |r| == Utf16Length(name)
    ensures forall k :: 0 <= k < |r| ==> SlugChar(r[k]) || r[k] == '-'
  {
    Utf16LengthLower(name);
    SlugOfLower(Lower(name))
  }

  /** Character `i` of the name is found in the slug at its UTF-16 offset:
      itself when lower-cased it is in `[a-z0-9]`, dashes otherwise. */
  lemma {:induction false} SlugAt(name: string, i: int)
    requires 0 <= i < |name|
    ensures var o := Utf16Length(name[..i]);
      var p := SlugPiece(LowerChar(name[i]));
      o + |p| <= |Slug(name)| && Slug(name)[o..o + |p|] == p
  {
    var lower := Lower(name);
    SlugOfLowerAt(lower, i);
    assert lower[..i] == Lower(name[..i]);
    Utf16LengthLower(name[..i]);
  }

  lemma {:induction false} SlugOfLowerAt(lower: string, i: int)
    requires 0 <= i < |lower|
    ensures var o := Utf16Length(lower[..i]);
      var p := SlugPiece(lower[i]);
      o + |p| <= |SlugOfLower(lower)| && SlugOfLower(lower)[o..o + |p|] == p
  {
    var a, c, b := lower[..i], lower[i], lower[i + 1..];
    assert lower == a + [c] + b;
    SlugOfLowerAppend(a + [c], b);
    SlugOfLowerAppend(a, [c]);
    assert SlugOfLower([c]) == [] + SlugPiece(c);
    var front, p, back := SlugOfLower(a), SlugPiece(c), SlugOfLower(b);
    assert (front + p + back)[|front|..|front| + |p|] == p;
  }


  /** For a name without characters above U+FFFF the slug has the name's
      length, and position `i` holds the lower-cased character when it is
      in `[a-z0-9]` and `-` otherwise. */
  lemma {:induction false} SlugBmp(name: string, i: int)
    requires forall k :: 0 <= k < |name| ==> name[k] as int < 0x1_0000
    requires 0 <= i < |name|
    ensures |Slug(name)| == |name|
    ensures Slug(name)[i] == (if SlugChar(LowerChar(name[i])) then LowerChar(name[i]) else '-')
  {
    Utf16LengthBmp(name);
    assert forall k :: 0 <= k < i ==> name[..i][k] == name[k];
    Utf16LengthBmp(name[..i]);
    SlugAt(name, i);
    var p := SlugPiece(LowerChar(name[i]));
    assert Slug(name)[i] == Slug(name)[i..i + |p|][0];
  }

  /** The location id: the slug, a dash and the year. */
  function LocationId(name: string, year: int): (r: string)
    ensures var n := |Slug(name)|;
      |r| > n && r[..n] == Slug(name) && r[n] == '-' && r[n + 1..] == DecimalString(year)
  {
    Slug(name) + "-" + DecimalString(year)
  }

  /** The slug of a concatenation is the concatenation of the slugs. */
  lemma {:induction false} SlugOfLowerAppend(a: string, b: string)
    ensures SlugOfLower(a + b) == SlugOfLower(a) + SlugOfLower(b)
    decreases |b|
  {
    if b != [] {
      var init := b[..|b| - 1];
      assert (a + b)[..|a + b| - 1] == a + init;
      SlugOfLowerAppend(a, init);
    } else {
      assert a + b == a;
    }
  }

  /** A name made of `[a-z0-9]` is its own slug. */
  lemma {:induction false} SlugOfLowerKeeps(lower: string)
    requires forall k :: 0 <= k < |lower| ==> SlugChar(lower[k])
    ensures SlugOfLower(lower) == lower
    decreases |lower|
  {
    if lower != [] {
      var init := lower[..|lower| - 1];
      assert forall k :: 0 <= k < |init| ==> init[k] == lower[k];
      SlugOfLowerKeeps(init);
      assert init + [lower[|lower| - 1]] == lower;
    }
  }

  /** A flag emoji is two characters above U+FFFF, so `Paris` followed by
      a space and a flag gets six dashes before the year: one for the
      space and four for the flag. */
  lemma {:induction false} FlagExample()
    ensures LocationId("Paris \U{1F1EB}\U{1F1F7}", 2019) == "paris------2019"
  {
    var name := "Paris \U{1F1EB}\U{1F1F7}";
    FlagSlug(name);
    Year2019();
    FlagId(Slug(name), DecimalString(2019));
    assert LocationId(name, 2019) == Slug(name) + "-" + DecimalString(2019);
  }

  lemma {:induction false} Year2019()
    ensures DecimalString(2019) == "2019"
  {
    FourDigits(2019);
  }

  lemma {:induction false} FlagId(slug: string, digits: string)
    requires slug == "paris-----" && digits == "2019"
    ensures slug + "-" + digits == "paris------2019"
  {
  }

  lemma {:induction false} FlagSlug(name: string)
    requires name == "Paris \U{1F1EB}\U{1F1F7}"
    ensures Slug(name) == "paris-----"
  {
    var flag := "\U{1F1EB}\U{1F1F7}";
    FlagLower(name);
    SlugOfLowerAppend("paris" + " ", flag);
    SlugOfLowerAppend("paris", " ");
    SlugOfLowerKeeps("paris");
    SlugOfLowerAppend([flag[0]], [flag[1]]);
    assert SlugOfLower([flag[0]]) == [] + SlugPiece(flag[0]);
    assert SlugOfLower([flag[1]]) == [] + SlugPiece(flag[1]);
    assert SlugOfLower(" ") == [] + SlugPiece(' ');
    assert [flag[0]] + [flag[1]] == flag;
  }

  lemma {:induction false} FlagLower(name: string)
    requires name == "Paris \U{1F1EB}\U{1F1F7}"
    ensures Lower(name) == "paris" + " " + "\U{1F1EB}\U{1F1F7}"
  {
  }

  /** Names that differ only in letter case get the same id (they are
      still separate groups, since the grouping key is the name). */
  lemma {:induction false} SameIdAcrossCase(a: string, b: string, year: int)
    requires Lower(a) == Lower(b)
    ensures LocationId(a, year) == LocationId(b, year)
  {
    assert Slug(a) == Slug(b);
  }

  lemma {:induction false} TokyoExample(year: int)
    ensures "Tokyo" != "tokyo" && LocationId("Tokyo", year) == LocationId("tokyo", year)
  {
    assert "Tokyo"[0] != "tokyo"[0];
    assert Lower("Tokyo") == Lower("tokyo");
    SameIdAcrossCase("Tokyo", "tokyo", year);
  }

  /** The non-empty contributors of a group, in order (`filter(Boolean)`). */
  function Contributors(group: seq<StoredPhoto>): (r: seq<string>)
    ensures forall c :: c in r <==> c != "" && exists p :: p in group && p.contributor == Some(c)
  {
    if group == [] then []
    else
      var rest := Contributors(group[1..]);
      assert forall p :: p in group[1..] ==> p in group;
      assert forall p :: p in group ==> p == group[0] || p in group[1..];
      var c := group[0].contributor;
      (if c.Some? && c.value != "" then [c.value] else []) + rest
  }

  /** The location type: the one distinct contributor decides, by
      case-insensitive substring with `pranav` tried first; any other
      number of distinct contributors gives `together`. */
  function ContributorType(group: seq<StoredPhoto>): (r: LocationType)
    ensures |Distinct(Contributors(group))| != 1 ==> r == Together
    ensures r == Pranav ==>
      exists p :: p in group && p.contributor.Some? && Includes(Lower(p.contributor.value), "pranav")
    ensures r == Pooja ==>
      exists p :: p in group && p.contributor.Some? && !Includes(Lower(p.contributor.value), "pranav")
        && Includes(Lower(p.contributor.value), "pooja")
  {
    var contributors := Distinct(Contributors(group));
    if |contributors| == 1 then
      assert contributors[0] in Contributors(group);
      var name := Lower(contributors[0]);
      if Includes(name, "pranav") then Pranav
      else if Includes(name, "pooja") then Pooja
      else Together
    else Together
  }

  /** Two different contributors make a shared location. */
  lemma {:induction false} TwoContributorsTogether(group: seq<StoredPhoto>, i: int, j: int)
    requires 0 <= i < |group| && 0 <= j < |group|
    requires group[i].contributor.Some? && group[j].contributor.Some?
    requires group[i].contributor.value != "" && group[j].contributor.value != ""
    requires group[i].contributor != group[j].contributor
    ensures ContributorType(group) == Together
  {
    var d := Distinct(Contributors(group));
    var a := group[i].contributor.value;
    var b := group[j].contributor.value;
    assert a in d && b in d;
    assert |d| != 1;
    assert ContributorType(group) == Together;
  }

  /** A group with no named contributor is shared. */
  lemma {:induction false} NoContributorTogether(group: seq<StoredPhoto>)
    requires forall p :: p in group ==> p.contributor.None? || p.contributor.value == ""
    ensures ContributorType(group) == Together
  {
    var d := Distinct(Contributors(group));
    assert forall c :: c !in Contributors(group);
    NoMemberEmpty(d);
    assert ContributorType(group) == Together;
  }

  /** When every named photo has the same contributor `c`, `c` decides. */
  lemma {:induction false} SoleContributor(group: seq<StoredPhoto>, c: string)
    requires c != ""
    requires exists p :: p in group && p.contributor == Some(c)
    requires forall p :: p in group && p.contributor.Some? && p.contributor.value != "" ==> p.contributor.value == c
    ensures ContributorType(group) ==
      if Includes(Lower(c), "pranav") then Pranav else if Includes(Lower(c), "pooja") then Pooja else Together
  {
    var d := Distinct(Contributors(group));
    assert c in d;
    forall i | 0 <= i < |d| ensures d[i] == c {
      assert d[i] in Contributors(group);
    }
    AllSameDistinct(d, c);
    assert ContributorType(group) ==
      if Includes(Lower(c), "pranav") then Pranav else if Includes(Lower(c), "pooja") then Pooja else Together;
  }

  /** The stored location of group `name`; year and coordinates come
      from its first photo. */
  function BuildLocation(name: string, group: seq<StoredPhoto>, yearOf: string -> int): (r: StoredLocation)
    requires |group| > 0
    ensures r.name == name && r.year == yearOf(group[0].takenAt)
    ensures r.id == LocationId(name, r.year)
    ensures r.ltype == ContributorType(group) && r.lat == group[0].lat && r.lng == group[0].lng
    ensures |r.photoIds| == |group| && forall k :: 0 <= k < |group| ==> r.photoIds[k] == group[k].id
  {
    var year := yearOf(group[0].takenAt);
    StoredLocation(LocationId(name, year), name, group[0].lat, group[0].lng, ContributorType(group), year,
      seq(|group|, k requires 0 <= k < |group| => group[k].id))
  }

  /** The locations built for the labels `ks` (each of them the label
      of some entry), skipping `unlocated`. */
  function LocationsFor(ks: seq<string>, es: seq<Entry>, yearOf: string -> int): (r: seq<StoredLocation>)
    requires forall k :: k in ks ==> k in Keys(es)
    ensures |r| <= |ks|
  {
    if ks == [] then []
    else
      var name := ks[|ks| - 1];
      var init := LocationsFor(ks[..|ks| - 1], es, yearOf);
      if name == Unlocated then init
      else
        GroupNonEmpty(es, name);
        init + [BuildLocation(name, Group(es, name), yearOf)]
  }

  /** The locations of one sync: one per distinct label, in first-seen order. */
  function SyncedLocations(es: seq<Entry>, yearOf: string -> int): (r: seq<StoredLocation>)
    ensures Names(r) == LocatedLabels(Distinct(Keys(es)))
  {
    LocationsForNames(Distinct(Keys(es)), es, yearOf);
    LocationsFor(Distinct(Keys(es)), es, yearOf)
  }

  function Names(ls: seq<StoredLocation>): (r: seq<string>)
    ensures |r| == |ls| && forall i :: 0 <= i < |ls| ==> r[i] == ls[i].name
  {
    seq(|ls|, i requires 0 <= i < |ls| => ls[i].name)
  }

  /** The labels other than `unlocated`, in order. */
  function LocatedLabels(ks: seq<string>): (r: seq<string>)
    ensures forall k :: k in r <==> k in ks && k != Unlocated
  {
    if ks == [] then []
    else
      var init := LocatedLabels(ks[..|ks| - 1]);
      assert forall k :: k in ks[..|ks| - 1] ==> k in ks;
      assert forall k :: k in ks ==> k in ks[..|ks| - 1] || k == ks[|ks| - 1];
      init + (if ks[|ks| - 1] == Unlocated then [] else [ks[|ks| - 1]])
  }

  lemma {:induction false} NamesSnoc(ls: seq<StoredLocation>, l: StoredLocation)
    ensures Names(ls + [l]) == Names(ls) + [l.name]
  {
    assert forall i :: 0 <= i < |ls| ==> (ls + [l])[i] == ls[i];
  }

  lemma {:induction false} LocationsForNames(ks: seq<string>, es: seq<Entry>, yearOf: string -> int)
    requires forall k :: k in ks ==> k in Keys(es)
    ensures Names(LocationsFor(ks, es, yearOf)) == LocatedLabels(ks)
    decreases |ks|
  {
    if ks != [] {
      var init := ks[..|ks| - 1];
      var name := ks[|ks| - 1];
      LocationsForNames(init, es, yearOf);
      var li := LocationsFor(init, es, yearOf);
      if name != Unlocated {
        GroupNonEmpty(es, name);
        var l := BuildLocation(name, Group(es, name), yearOf);
        NamesSnoc(li, l);
      }
    }
  }

  /** Every location is the one built from its own group. */
  lemma {:induction false} LocationsForMember(ks: seq<string>, es: seq<Entry>, yearOf: string -> int, l: StoredLocation)
    requires forall k :: k in ks ==> k in Keys(es)
    requires l in LocationsFor(ks, es, yearOf)
    ensures l.name in ks && l.name != Unlocated && l.name in Keys(es)
    ensures |Group(es, l.name)| > 0
    ensures l == BuildLocation(l.name, Group(es, l.name), yearOf)
    decreases |ks|
  {
    var init := ks[..|ks| - 1];
    var name := ks[|ks| - 1];
    var li := LocationsFor(init, es, yearOf);
    if l in li {
      LocationsForMember(init, es, yearOf, l);
    } else {
      GroupNonEmpty(es, name);
      assert LocationsFor(ks, es, yearOf) == li + [BuildLocation(name, Group(es, name), yearOf)];
    }
  }

  /** The photo ids of a group are the ids of the entries with that label. */
  lemma {:induction false} GroupIds(es: seq<Entry>, l: StoredLocation, yearOf: string -> int)
    requires l.name in Keys(es)
    requires |Group(es, l.name)| > 0 && l == BuildLocation(l.name, Group(es, l.name), yearOf)
    ensures forall id :: id in l.photoIds <==> exists i :: 0 <= i < |es| && es[i].key == l.name && es[i].photo.id == id
  {
    var g := Group(es, l.name);
    forall id ensures id in l.photoIds <==> exists i :: 0 <= i < |es| && es[i].key == l.name && es[i].photo.id == id
    {
      if id in l.photoIds {
        var k :| 0 <= k < |l.photoIds| && l.photoIds[k] == id;
        GroupMember(es, l.name, g[k]);
      }
      if exists i :: 0 <= i < |es| && es[i].key == l.name && es[i].photo.id == id {
        var i :| 0 <= i < |es| && es[i].key == l.name && es[i].photo.id == id;
        GroupMember(es, l.name, es[i].photo);
        var k :| 0 <= k < |g| && g[k] == es[i].photo;
        assert l.photoIds[k] == id;
      }
    }
  }

  /** The locations of a sync: their names are the distinct labels other
      than `unlocated`, in first-seen order; each lists the ids of exactly
      the entries with its name; its year and coordinates are those of the
      first such entry, its type is decided by the contributors of all of
      them, and its id is the slug of its name with that year. */
  lemma {:induction false} SyncedLocationsSpec(es: seq<Entry>, yearOf: string -> int)
    ensures var ls := SyncedLocations(es, yearOf);
      Names(ls) == LocatedLabels(Distinct(Keys(es)))
      && forall l :: l in ls ==>
        l.name != Unlocated && l.name in Keys(es)
        && l.year == yearOf(es[FirstIndex(Keys(es), l.name)].photo.takenAt)
        && l.lat == es[FirstIndex(Keys(es), l.name)].photo.lat
        && l.lng == es[FirstIndex(Keys(es), l.name)].photo.lng
        && l.ltype == ContributorType(Group(es, l.name))
        && l.id == LocationId(l.name, l.year)
        && (forall id :: id in l.photoIds <==> exists i :: 0 <= i < |es| && es[i].key == l.name && es[i].photo.id == id)
  {
    var ks := Distinct(Keys(es));
    var ls := SyncedLocations(es, yearOf);
    LocationsForNames(ks, es, yearOf);
    forall l | l in ls
      ensures l.name != Unlocated && l.name in Keys(es)
      ensures l.year == yearOf(es[FirstIndex(Keys(es), l.name)].photo.takenAt)
      ensures l.lat == es[FirstIndex(Keys(es), l.name)].photo.lat
      ensures l.lng == es[FirstIndex(Keys(es), l.name)].photo.lng
      ensures l.ltype == ContributorType(Group(es, l.name))
      ensures l.id == LocationId(l.name, l.year)
      ensures forall id :: id in l.photoIds <==> exists i :: 0 <= i < |es| && es[i].key == l.name && es[i].photo.id == id
    {
      LocationsForMember(ks, es, yearOf, l);
      GroupFirst(es, l.name);
      GroupIds(es, l, yearOf);
    }
  }

  /** An item whose caption names no place is in no location. */
  lemma {:induction false} UnlocatedInNoLocation(es: seq<Entry>, yearOf: string -> int, i: int)
    requires 0 <= i < |es| && es[i].key == Unlocated
    ensures forall l :: l in SyncedLocations(es, yearOf) ==> l.name != es[i].key
  {
    forall l | l in SyncedLocations(es, yearOf) ensures l.name != es[i].key {
      LocationsForMember(Distinct(Keys(es)), es, yearOf, l);
    }
  }

  /** Locations come in the order their labels first occur. */
  lemma {:induction false} FirstSeenOrder(es: seq<Entry>, yearOf: string -> int)
    ensures var ls := SyncedLocations(es, yearOf);
      forall a, b :: 0 <= a < b < |ls| ==>
        ls[a].name in Keys(es) && ls[b].name in Keys(es)
        && FirstIndex(Keys(es), ls[a].name) < FirstIndex(Keys(es), ls[b].name)
  {
    var ks := Keys(es);
    var d := Distinct(ks);
    var ls := SyncedLocations(es, yearOf);
    LocationsForNames(d, es, yearOf);
    DistinctFirstSeenOrder(ks);
    forall a, b | 0 <= a < b < |ls|
      ensures ls[a].name in ks && ls[b].name in ks
      ensures FirstIndex(ks, ls[a].name) < FirstIndex(ks, ls[b].name)
    {
      assert Names(ls)[a] == ls[a].name && Names(ls)[b] == ls[b].name;
      LocatedLabelsOrder(d, a, b);
    }
  }

  /** Dropping `unlocated` keeps the relative order of the other labels. */
  lemma {:induction false} LocatedLabelsOrder(ks: seq<string>, a: int, b: int)
    requires 0 <= a < b < |LocatedLabels(ks)|
    ensures exists i, j :: 0 <= i < j < |ks| && ks[i] == LocatedLabels(ks)[a] && ks[j] == LocatedLabels(ks)[b]
    decreases |ks|
  {
    var n := |ks| - 1;
    var init := ks[..n];
    var li := LocatedLabels(init);
    if b < |li| {
      LocatedLabelsOrder(init, a, b);
      var i, j :| 0 <= i < j < |init| && init[i] == li[a] && init[j] == li[b];
      assert ks[i] == init[i] && ks[j] == init[j];
    } else {
      assert LocatedLabels(ks)[b] == ks[n];
      assert LocatedLabels(ks)[a] == li[a];
      assert li[a] in init;
      var i :| 0 <= i < |init| && init[i] == li[a];
      assert ks[i] == init[i];
    }
  }

  // ---------------------------------------------------------------------------
  // Metadata
  // ---------------------------------------------------------------------------

  function Years(ls: seq<StoredLocation>): (r: seq<int>)
    ensures |r| == |ls| && forall i :: 0 <= i < |ls| ==> r[i] == ls[i].year
  {
    seq(|ls|, i requires 0 <= i < |ls| => ls[i].year)
  }

  /** `[...new Set(locations.map(l => l.year))].sort()`. */
  function MetaYears(ls: seq<StoredLocation>): (r: seq<int>)
    ensures multiset(r) == multiset(Distinct(Years(ls)))
    ensures SortedForSort(r)
  {
    DefaultSort(Distinct(Years(ls)))
  }

  /** The year list holds each location year exactly once, in the order
      of `Array.prototype.sort` (by decimal text). */
  lemma {:induction false} MetaYearsSpec(ls: seq<StoredLocation>)
    ensures var ys := MetaYears(ls);
      (forall y :: y in ys <==> exists l :: l in ls && l.year == y)
      && (forall i, j :: 0 <= i < j < |ys| ==> ys[i] != ys[j])
      && SortedForSort(ys)
  {
    var d := Distinct(Years(ls));
    var ys := MetaYears(ls);
    assert multiset(ys) == multiset(d);
    forall y ensures y in ys <==> exists l :: l in ls && l.year == y {
      assert y in ys <==> y in multiset(ys);
      assert y in d <==> y in multiset(d);
      if y in Years(ls) {
        var i :| 0 <= i < |ls| && Years(ls)[i] == y;
        assert ls[i] in ls;
      }
      if exists l :: l in ls && l.year == y {
        var l :| l in ls && l.year == y;
        var i :| 0 <= i < |ls| && ls[i] == l;
        assert Years(ls)[i] == y;
      }
    }
    forall i, j | 0 <= i < j < |ys| ensures ys[i] != ys[j] {
      if ys[i] == ys[j] {
        CountDistinct(d, ys[i]);
        MultisetTwice(ys, i, j);
      }
    }
  }

  lemma {:induction false} MultisetTwice(s: seq<int>, i: int, j: int)
    requires 0 <= i < j < |s| && s[i] == s[j]
    ensures multiset(s)[s[i]] >= 2
  {
    assert s == s[..i] + [s[i]] + (s[i + 1..j] + [s[j]] + s[j + 1..]);
    assert s[i + 1..] == s[i + 1..j] + [s[j]] + s[j + 1..];
  }

  /** For four-digit years the text order is the numeric order, so the
      list is strictly increasing. */
  lemma {:induction false} MetaYearsAscending(ls: seq<StoredLocation>)
    requires forall l :: l in ls ==> 1000 <= l.year <= 9999
    ensures var ys := MetaYears(ls);
      forall i, j :: 0 <= i < j < |ys| ==> ys[i] < ys[j]
  {
    var ys := MetaYears(ls);
    MetaYearsSpec(ls);
    forall i, j | 0 <= i < j < |ys| ensures ys[i] < ys[j] {
      assert ys[i] in ys && ys[j] in ys;
      var li :| li in ls && li.year == ys[i];
      var lj :| lj in ls && lj.year == ys[j];
      assert SortLe(ys[i], ys[j]);
      FourDigitSortLe(ys[i], ys[j]);
    }
  }

  // ---------------------------------------------------------------------------
  // The route
  // ---------------------------------------------------------------------------

  /** The answers of the route. */
  datatype SyncResponse =
    | Unauthorized
    | NotConfigured
    | SyncFailed(error: FetchError)
    | Synced(photos: nat, locations: nat, syncedAt: string)
    | UsePost
    | Crashed

  function Status(r: SyncResponse): int {
    match r
    case Unauthorized => 401
    case NotConfigured => 500
    case SyncFailed(_) => 500
    case Synced(_, _, _) => 200
    case UsePost => 405
    case Crashed => 500
  }

  /** The store after a successful sync of `items`: the user captions
      are read first and kept; the other three slots are replaced. */
  function SyncedState(s: StoreState, items: seq<GoogleMediaItem>, albumId: string, now: string, yearOf: string -> int): (r: StoreState)
    ensures r.captions == s.captions
    ensures var es := Entries(items, CaptionsOf(s), now);
      r.photos == Some(Photos(es)) && r.locations == Some(SyncedLocations(es, yearOf))
    ensures r.meta.Some? && r.meta.value.totalPhotos == |items| && r.meta.value.lastSynced == now
      && r.meta.value.albumId == albumId
    ensures r.meta.Some? && r.meta.value.years == MetaYears(SyncedLocations(Entries(items, CaptionsOf(s), now), yearOf))
  {
    var es := Entries(items, CaptionsOf(s), now);
    var ls := SyncedLocations(es, yearOf);
    s.(photos := Some(Photos(es)),
       locations := Some(ls),
       meta := Some(JourneyMeta(now, albumId, |items|, MetaYears(ls))))
  }

  /** POST /api/sync. `pages` answers the album listing. */
  method SyncPost(store: KvStore, authorization: Option<string>, secret: Option<string>, albumId: Option<string>,
                  pages: seq<PageResponse>, now: string, yearOf: string -> int)
    returns (response: SyncResponse)
    requires HasStop(pages)
    modifies store
    ensures !Authorized(authorization, secret) ==> response == Unauthorized && store.State() == old(store.State())
    ensures Authorized(authorization, secret) && !AlbumConfigured(albumId) ==>
      response == NotConfigured && store.State() == old(store.State())
    ensures Authorized(authorization, secret) && AlbumConfigured(albumId) && AlbumItems(pages).Failure? ==>
      response == SyncFailed(AlbumItems(pages).error) && store.State() == old(store.State())
    ensures Authorized(authorization, secret) && AlbumConfigured(albumId) && AlbumItems(pages).Success? ==>
      var items := AlbumItems(pages).value;
      response == Synced(|items|, |SyncedLocations(Entries(items, CaptionsOf(old(store.State())), now), yearOf)|, now)
      && store.State() == SyncedState(old(store.State()), items, albumId.value, now, yearOf)
  {
    if !Authorized(authorization, secret) {
      return Unauthorized;
    }
    if !AlbumConfigured(albumId) {
      return NotConfigured;
    }
    var fetched, _ := FetchAlbumPhotos(albumId.value, pages);
    if fetched.Failure? {
      return SyncFailed(fetched.error);
    }
    var mediaItems := fetched.value;
    var userCaptions := CaptionsOf(store.State());
    ghost var es := Entries(mediaItems, userCaptions, now);

    var photos, order, groups := GroupItems(mediaItems, userCaptions, now);
    assert es[..|mediaItems|] == es;
    assert photos == Photos(es) && order == Distinct(Keys(es));
    var locations := BuildLocations(order, groups, es, yearOf);
    assert locations == SyncedLocations(es, yearOf);
    ghost var target := SyncedState(store.State(), mediaItems, albumId.value, now, yearOf);
    store.StorePhotos(photos);
    store.StoreLocations(locations);
    store.StoreMeta(JourneyMeta(now, albumId.value, |photos|, DefaultSort(Distinct(Years(locations)))));
    assert store.State() == target;
    return Synced(|photos|, |locations|, now);
  }

  /** The group map has exactly the labels of `order` as keys. */
  ghost predicate KeysAre(groups: map<string, seq<StoredPhoto>>, order: seq<string>) {
    forall k :: k in groups <==> k in order
  }

  /** Every group in the map holds the photos of its label among `es`. */
  ghost predicate GroupsOf(groups: map<string, seq<StoredPhoto>>, es: seq<Entry>) {
    forall k :: k in groups ==> groups[k] == Group(es, k)
  }

  /** The state of the first loop after the entries `es[..n]`. */
  ghost predicate GroupedUpTo(es: seq<Entry>, n: int, photos: seq<StoredPhoto>, order: seq<string>,
                        groups: map<string, seq<StoredPhoto>>)
    requires 0 <= n <= |es|
  {
    photos == Photos(es[..n]) && order == Distinct(Keys(es[..n]))
    && KeysAre(groups, order) && GroupsOf(groups, es[..n])
  }

  /** The first loop of the route: one photo per item, in item order, and
      the items grouped by label, the labels kept in first-seen order. */
  method GroupItems(mediaItems: seq<GoogleMediaItem>, userCaptions: map<string, string>, now: string)
    returns (photos: seq<StoredPhoto>, order: seq<string>, groups: map<string, seq<StoredPhoto>>)
    ensures GroupedUpTo(Entries(mediaItems, userCaptions, now), |mediaItems|, photos, order, groups)
  {
    ghost var es := Entries(mediaItems, userCaptions, now);
    photos, order, groups := [], [], map[];
    GroupedStart(es);
    for i := 0 to |mediaItems|
      invariant GroupedUpTo(es, i, photos, order, groups)
    {
      var entry := EntryOf(mediaItems[i], userCaptions, now);
      ghost var before, orderBefore, photosBefore := groups, order, photos;
      photos := photos + [entry.photo];
      var group := [];
      if entry.key in groups {
        group := groups[entry.key];
      } else {
        order := order + [entry.key];
      }
      groups := groups[entry.key := group + [entry.photo]];
      GroupedStep(es, i, entry, photosBefore, orderBefore, before, photos, order, groups);
    }
  }

  /** Before the first loop runs, nothing is grouped. */
  lemma {:induction false} GroupedStart(es: seq<Entry>)
    ensures GroupedUpTo(es, 0, [], [], map[])
  {
    assert es[..0] == [];
  }

  /** One iteration of the first loop: entry `i` joins the photo list,
      the label order (when new) and its group. */
  lemma {:induction false} GroupedStep(es: seq<Entry>, i: int, entry: Entry, photos: seq<StoredPhoto>, order: seq<string>,
                    groups: map<string, seq<StoredPhoto>>, photos': seq<StoredPhoto>, order': seq<string>,
                    groups': map<string, seq<StoredPhoto>>)
    requires 0 <= i < |es| && es[i] == entry && GroupedUpTo(es, i, photos, order, groups)
    requires photos' == photos + [entry.photo]
    requires order' == order + (if entry.key in groups then [] else [entry.key])
    requires groups' == groups[entry.key := (if entry.key in groups then groups[entry.key] else []) + [entry.photo]]
    ensures GroupedUpTo(es, i + 1, photos', order', groups')
  {
    PhotosStep(es, i);
    OrderStep(es, i, groups, order, order');
    KeysStep(groups, order, groups', order', es[i].key);
    GroupsStep(es, i, groups, groups');
  }

  /** One more entry extends the photo list by its photo. */
  lemma {:induction false} PhotosStep(es: seq<Entry>, i: int)
    requires 0 <= i < |es|
    ensures Photos(es[..i + 1]) == Photos(es[..i]) + [es[i].photo]
  {
    assert es[..i + 1][..i] == es[..i];
  }

  /** One more entry adds its label to the order when it is new. */
  lemma {:induction false} OrderStep(es: seq<Entry>, i: int, groups: map<string, seq<StoredPhoto>>,
                                     order: seq<string>, order': seq<string>)
    requires 0 <= i < |es| && order == Distinct(Keys(es[..i])) && KeysAre(groups, order)
    requires order' == order + (if es[i].key in groups then [] else [es[i].key])
    ensures order' == Distinct(Keys(es[..i + 1]))
  {
    var ks := Keys(es[..i + 1]);
    assert ks[..i] == Keys(es[..i]);
    assert ks == ks[..i] + [es[i].key];
  }

  /** Adding a label to the map and, when new, to the order keeps the two in step. */
  lemma {:induction false} KeysStep(groups: map<string, seq<StoredPhoto>>, order: seq<string>,
                                    groups': map<string, seq<StoredPhoto>>, order': seq<string>, key: string)
    requires KeysAre(groups, order)
    requires order' == order + (if key in groups then [] else [key])
    requires key in groups' && groups'.Keys == groups.Keys + {key}
    ensures KeysAre(groups', order')
  {
  }

  /** The second loop of the route: one location per label other than
      `unlocated`, built from that label's group. */
  method BuildLocations(order: seq<string>, groups: map<string, seq<StoredPhoto>>, ghost es: seq<Entry>,
                        yearOf: string -> int)
    returns (locations: seq<StoredLocation>)
    requires forall k :: k in order ==> k in Keys(es)
    requires forall k :: k in order ==> k in groups && groups[k] == Group(es, k)
    ensures locations == LocationsFor(order, es, yearOf)
  {
    locations := [];
    for j := 0 to |order|
      invariant locations == LocationsFor(order[..j], es, yearOf)
    {
      assert order[..j + 1][..j] == order[..j];
      var locationName := order[j];
      if locationName == Unlocated {
        continue;
      }
      var locationPhotos := groups[locationName];
      GroupNonEmpty(es, locationName);
      locations := locations + [BuildLocation(locationName, locationPhotos, yearOf)];
    }
    assert order[..|order|] == order;
  }

  /** Appending entry `i` to its group keeps every group equal to the
      group of the entries seen so far. */
  lemma {:induction false} GroupsStep(es: seq<Entry>, i: int, before: map<string, seq<StoredPhoto>>, after: map<string, seq<StoredPhoto>>)
    requires 0 <= i < |es|
    requires KeysAre(before, Distinct(Keys(es[..i]))) && GroupsOf(before, es[..i])
    requires after == before[es[i].key := (if es[i].key in before then before[es[i].key] else []) + [es[i].photo]]
    ensures GroupsOf(after, es[..i + 1])
  {
    var key := es[i].key;
    GroupStep(es, i);
    if key !in before {
      GroupEmpty(es[..i], key);
    }
  }

  /** One more entry extends its own group and no other. */
  lemma {:induction false} GroupStep(es: seq<Entry>, i: int)
    requires 0 <= i < |es|
    ensures forall k :: Group(es[..i + 1], k) == Group(es[..i], k) + (if k == es[i].key then [es[i].photo] else [])
  {
    assert es[..i + 1][..i] == es[..i];
  }

  /** GET /api/sync: in development it runs the POST on a new request
      whose header is set to the expected value, as `Headers` normalises
      it; when `new Request` throws on that value the exception escapes
      the handler (`Crashed`). Otherwise it answers 405. */
  method SyncGet(store: KvStore, development: bool, secret: Option<string>, albumId: Option<string>,
                 pages: seq<PageResponse>, now: string, yearOf: string -> int)
    returns (response: SyncResponse)
    requires HasStop(pages)
    modifies store
    ensures !development ==> response == UsePost && store.State() == old(store.State())
    ensures development && HeaderValue(ExpectedHeader(secret)).None? ==>
      response == Crashed && store.State() == old(store.State())
    ensures (development && HeaderValue(ExpectedHeader(secret)).Some?
             && !Authorized(HeaderValue(ExpectedHeader(secret)), secret)) ==>
      response == Unauthorized && store.State() == old(store.State())
    ensures development && Authorized(HeaderValue(ExpectedHeader(secret)), secret) && !AlbumConfigured(albumId) ==>
      response == NotConfigured && store.State() == old(store.State())
    ensures (development && Authorized(HeaderValue(ExpectedHeader(secret)), secret) && AlbumConfigured(albumId)
             && AlbumItems(pages).Failure?) ==>
      response == SyncFailed(AlbumItems(pages).error) && store.State() == old(store.State())
    ensures (development && Authorized(HeaderValue(ExpectedHeader(secret)), secret) && AlbumConfigured(albumId)
             && AlbumItems(pages).Success?) ==>
      var items := AlbumItems(pages).value;
      response == Synced(|items|, |SyncedLocations(Entries(items, CaptionsOf(old(store.State())), now), yearOf)|, now)
      && store.State() == SyncedState(old(store.State()), items, albumId.value, now, yearOf)
  {
    if development {
      var header := HeaderValue(ExpectedHeader(secret));
      if header.None? {
        return Crashed;
      }
      response := SyncPost(store, header, secret, albumId, pages, now, yearOf);
    } else {
      response := UsePost;
    }
  }
}
