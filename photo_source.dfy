/** The two calls of lib/google-photos.ts that talk to the photo API:
    listing an album page by page, and resolving fresh image URLs in
    batches. The network is replaced by a transcript: the `k`-th request
    sent is answered by the `k`-th response of the transcript. */
module PhotoSource {
  import opened Wrappers
  import opened Types
  import opened Seqs

  // ---------------------------------------------------------------------------
  // Listing an album
  // ---------------------------------------------------------------------------

  /** Page size asked of the search endpoint. */
  const PageSize: int := 100

  /** The JSON body of one `mediaItems:search` request. */
  datatype PageRequest = PageRequest(albumId: string, pageSize: int, pageToken: Option<string>)

  /** One answer of the search endpoint: its HTTP status and, when it is
      `ok`, the parsed body (either property may be absent). */
  datatype PageResponse = PageResponse(
    ok: bool,
    status: int,
    mediaItems: Option<seq<GoogleMediaItem>>,
    nextPageToken: Option<string>)

  /** The error thrown on a non-`ok` answer (its message carries the status). */
  datatype FetchError = ApiError(status: int)

  /** The loop asks for another page only when the answer was `ok` and
      its token is a non-empty string (a JavaScript truthy value). */
  predicate Continues(p: PageResponse) {
    p.ok && p.nextPageToken.Some? && p.nextPageToken.value != ""
  }

  predicate HasStop(pages: seq<PageResponse>) {
    exists s :: 0 <= s < |pages| && !Continues(pages[s])
  }

  function StopFrom(pages: seq<PageResponse>, k: nat): (s: nat)
    requires k <= |pages|
    requires exists s :: k <= s < |pages| && !Continues(pages[s])
    ensures k <= s < |pages| && !Continues(pages[s])
    ensures forall m :: k <= m < s ==> Continues(pages[m])
    decreases |pages| - k
  {
    if !Continues(pages[k]) then k else StopFrom(pages, k + 1)
  }

  /** The index of the last page requested: the first one that ends the loop. */
  function LastPage(pages: seq<PageResponse>): (s: nat)
    requires HasStop(pages)
    ensures s < |pages| && !Continues(pages[s])
    ensures forall m :: 0 <= m < s ==> Continues(pages[m])
  {
    StopFrom(pages, 0)
  }

  /** The items a page contributes; an absent `mediaItems` contributes none. */
  function ItemsOf(p: PageResponse): seq<GoogleMediaItem> {
    p.mediaItems.GetOr([])
  }

  function PageItems(pages: seq<PageResponse>): (r: seq<seq<GoogleMediaItem>>)
    ensures |r| == |pages| && forall m :: 0 <= m < |pages| ==> r[m] == ItemsOf(pages[m])
  {
    seq(|pages|, m requires 0 <= m < |pages| => ItemsOf(pages[m]))
  }

  /** The token sent with request `k`: none at first, then the token of
      the previous answer. */
  function TokenFor(pages: seq<PageResponse>, k: nat): Option<string>
    requires k <= |pages|
  {
    if k == 0 then None else pages[k - 1].nextPageToken
  }

  /** What listing the album yields: the items of every page requested,
      in page order, or the error of the last page when it was not `ok`. */
  function AlbumItems(pages: seq<PageResponse>): (r: Result<seq<GoogleMediaItem>, FetchError>)
    requires HasStop(pages)
    ensures r.Failure? <==> !pages[LastPage(pages)].ok
    ensures r.Failure? ==> r.error == ApiError(pages[LastPage(pages)].status)
    ensures r.Success? ==>
      forall x :: x in r.value <==> exists m :: 0 <= m <= LastPage(pages) && x in ItemsOf(pages[m])
  {
    var s := LastPage(pages);
    if !pages[s].ok then Failure(ApiError(pages[s].status))
    else
      var r := Flatten(PageItems(pages[..s + 1]));
      assert forall m :: 0 <= m <= s ==> PageItems(pages[..s + 1])[m] == ItemsOf(pages[m]);
      Success(r)
  }

  /** fetchAlbumPhotos: requests pages until one ends the loop, throwing on
      the first answer that is not `ok`. Also returns the requests sent. */
  method FetchAlbumPhotos(albumId: string, pages: seq<PageResponse>)
    returns (r: Result<seq<GoogleMediaItem>, FetchError>, sent: seq<PageRequest>)
    requires HasStop(pages)
    ensures r == AlbumItems(pages)
    ensures |sent| == LastPage(pages) + 1
    ensures forall k :: 0 <= k < |sent| ==> sent[k] == PageRequest(albumId, PageSize, TokenFor(pages, k))
  {
    var all: seq<GoogleMediaItem> := [];
    var pageToken: Option<string> := None;
    var k := 0;
    sent := [];
    while true
      invariant k <= LastPage(pages)
      invariant pageToken == TokenFor(pages, k)
      invariant all == Flatten(PageItems(pages[..k]))
      invariant |sent| == k
      invariant forall m :: 0 <= m < k ==> sent[m] == PageRequest(albumId, PageSize, TokenFor(pages, m))
      decreases LastPage(pages) - k
    {
      var response := pages[k];
      sent := sent + [PageRequest(albumId, PageSize, pageToken)];
      if !response.ok {
        r := Failure(ApiError(response.status));
        return;
      }
      PageItemsStep(pages, k);
      all := all + ItemsOf(response);
      pageToken := response.nextPageToken;
      if !(pageToken.Some? && pageToken.value != "") {
        r := Success(all);
        return;
      }
      k := k + 1;
    }
  }

  lemma {:induction false} PageItemsStep(pages: seq<PageResponse>, k: nat)
    requires k < |pages|
    ensures Flatten(PageItems(pages[..k + 1])) == Flatten(PageItems(pages[..k])) + ItemsOf(pages[k])
  {
    assert PageItems(pages[..k + 1]) == PageItems(pages[..k]) + [ItemsOf(pages[k])];
    FlattenAppend(PageItems(pages[..k]), [ItemsOf(pages[k])]);
    assert Flatten([ItemsOf(pages[k])]) == ItemsOf(pages[k]) + Flatten([]);
  }

  /** Only one request is sent when the first answer carries no usable token. */
  lemma {:induction false} SinglePage(pages: seq<PageResponse>)
    requires |pages| > 0 && !Continues(pages[0])
    ensures LastPage(pages) == 0
    ensures pages[0].ok ==> AlbumItems(pages) == Success(ItemsOf(pages[0]))
  {
    StopUnique(pages, 0);
    if pages[0].ok {
      assert pages[..1] == [pages[0]];
      var none: seq<seq<GoogleMediaItem>> := [];
      assert PageItems(pages[..1]) == [ItemsOf(pages[0])] + none;
      assert Flatten(PageItems(pages[..1])) == ItemsOf(pages[0]) + Flatten(none);
      assert Flatten(none) == [];
      assert LastPage(pages) == 0;
      assert AlbumItems(pages) == Success(Flatten(PageItems(pages[..1])));
      assert Flatten(PageItems(pages[..1])) == ItemsOf(pages[0]);
    }
  }

  /** Every request after the first carries a non-empty token. */
  lemma {:induction false} LaterRequestsCarryToken(pages: seq<PageResponse>, k: nat)
    requires HasStop(pages) && 0 < k <= LastPage(pages)
    ensures TokenFor(pages, k).Some? && TokenFor(pages, k).value != ""
  {
  }

  /** Pages after the one that ends the loop change nothing. */
  lemma {:induction false} LaterPagesIgnored(pages: seq<PageResponse>, more: seq<PageResponse>)
    requires HasStop(pages)
    ensures HasStop(pages + more)
    ensures LastPage(pages + more) == LastPage(pages)
    ensures AlbumItems(pages + more) == AlbumItems(pages)
  {
    var s := LastPage(pages);
    assert (pages + more)[s] == pages[s];
    assert HasStop(pages + more);
    assert forall m :: 0 <= m <= s ==> (pages + more)[m] == pages[m];
    StopUnique(pages + more, s);
    assert (pages + more)[..s + 1] == pages[..s + 1];
  }

  lemma {:induction false} StopUnique(pages: seq<PageResponse>, s: nat)
    requires s < |pages| && !Continues(pages[s])
    requires forall m :: 0 <= m < s ==> Continues(pages[m])
    ensures LastPage(pages) == s
  {
  }

  // ---------------------------------------------------------------------------
  // Resolving fresh URLs
  // ---------------------------------------------------------------------------

  /** The most ids the batch endpoint accepts in one request. */
  const BatchSize: nat := 50

  /** Size suffix appended to every base URL. */
  const SizeSuffix: string := "=w800-h600"

  /** One element of `mediaItemResults`; a result without `mediaItem`
      stands for an id the API could not resolve. */
  datatype MediaItemResult = MediaItemResult(mediaItem: Option<GoogleMediaItem>)

  /** One answer of the batch endpoint. */
  datatype BatchResponse = BatchResponse(ok: bool, status: int, mediaItemResults: Option<seq<MediaItemResult>>)

  /** One `urlMap.set(id, url)`. */
  datatype UrlEntry = UrlEntry(id: string, url: string)

  function Min(a: int, b: int): int { if a <= b then a else b }

  /** The batches sent, starting at index `i` of the ids. */
  function BatchesFrom(ids: seq<string>, i: nat): seq<seq<string>>
    decreases |ids| - i
  {
    if i >= |ids| then [] else [ids[i..Min(i + BatchSize, |ids|)]] + BatchesFrom(ids, i + BatchSize)
  }

  /** The slices `ids[0..50]`, `ids[50..100]`, ... that are requested. */
  function Batches(ids: seq<string>): seq<seq<string>> {
    BatchesFrom(ids, 0)
  }

  /** The batches are ceil(n / 50) non-empty slices of at most 50 ids
      that concatenate back to the ids, in order. */
  lemma {:induction false} BatchesSpec(ids: seq<string>)
    ensures |Batches(ids)| == NumBatches(|ids|)
    ensures forall b :: b in Batches(ids) ==> 0 < |b| <= BatchSize
    ensures Flatten(Batches(ids)) == ids
  {
    BatchesShape(ids, 0);
    BatchesCover(ids, 0);
    assert ids[0..] == ids;
  }

  /** The entries one batch answer contributes: none when it was not
      `ok`; otherwise one per result that carries a media item. */
  function EntriesOfResults(results: seq<MediaItemResult>): seq<UrlEntry> {
    if results == [] then []
    else
      var last := results[|results| - 1];
      EntriesOfResults(results[..|results| - 1])
        + (if last.mediaItem.Some? then [UrlEntry(last.mediaItem.value.id, last.mediaItem.value.baseUrl + SizeSuffix)] else [])
  }

  function EntriesOf(b: BatchResponse): seq<UrlEntry> {
    if b.ok then EntriesOfResults(b.mediaItemResults.GetOr([])) else []
  }

  /** All entries of the given answers, in the order they are set. */
  function AllEntries(answers: seq<BatchResponse>): seq<UrlEntry> {
    if answers == [] then [] else AllEntries(answers[..|answers| - 1]) + EntriesOf(answers[|answers| - 1])
  }

  /** The map `m` after setting the entries one after another. */
  function SetAll(m: map<string, string>, es: seq<UrlEntry>): map<string, string> {
    if es == [] then m else SetAll(m, es[..|es| - 1])[es[|es| - 1].id := es[|es| - 1].url]
  }

  /** The map built from the entries alone: empty for no entries, and the
      last entry's url is the one kept for its id. */
  function MapOf(es: seq<UrlEntry>): (r: map<string, string>)
    ensures es == [] ==> r == map[]
    ensures es != [] ==> es[|es| - 1].id in r && r[es[|es| - 1].id] == es[|es| - 1].url
  {
    SetAll(map[], es)
  }

  /** The number of batches for `n` ids. */
  function NumBatches(n: nat): nat { (n + BatchSize - 1) / BatchSize }

  /** getFreshUrls: requests the ids in batches of 50, skips any batch
      whose answer is not `ok`, and maps each returned item's id to its
      base URL with the size suffix. Also returns the batches requested. */
  method GetFreshUrls(ids: seq<string>, answers: seq<BatchResponse>)
    returns (urlMap: map<string, string>, requested: seq<seq<string>>)
    requires |answers| >= NumBatches(|ids|)
    ensures requested == Batches(ids)
    ensures |requested| == NumBatches(|ids|)
    ensures urlMap == MapOf(AllEntries(answers[..|requested|]))
  {
    urlMap := map[];
    requested := [];
    var i: nat := 0;
    while i < |ids|
      invariant FetchedUpTo(ids, answers, i, requested, urlMap)
      decreases |ids| - i
    {
      var batch := ids[i..Min(i + BatchSize, |ids|)];
      NextBatch(ids, answers, i, requested, urlMap);
      var response := answers[|requested|];
      ghost var before := urlMap;
      if response.ok {
        urlMap := RecordResults(urlMap, response.mediaItemResults.GetOr([]));
      }
      FetchedStep(ids, answers, i, requested, before, urlMap);
      requested := requested + [batch];
      i := i + BatchSize;
    }
    BatchesDone(ids, answers, i, requested, urlMap);
  }

  /** The state of the loop of getFreshUrls when it reaches id `i`: the
      batches requested so far, and the map built from their answers. */
  ghost predicate FetchedUpTo(ids: seq<string>, answers: seq<BatchResponse>, i: nat, requested: seq<seq<string>>,
                              urlMap: map<string, string>) {
    NumBatches(|ids|) <= |answers| && requested + BatchesFrom(ids, i) == Batches(ids)
    && |requested| <= |answers| && urlMap == MapOf(AllEntries(answers[..|requested|]))
  }

  /** While ids remain, the next batch has an answer. */
  lemma {:induction false} NextBatch(ids: seq<string>, answers: seq<BatchResponse>, i: nat, requested: seq<seq<string>>,
                                     urlMap: map<string, string>)
    requires i < |ids| && FetchedUpTo(ids, answers, i, requested, urlMap)
    ensures |requested| < |answers|
  {
    BatchesFromStep(ids, i, requested);
  }

  /** One iteration: the batch at `i` is requested and its answer recorded. */
  lemma {:induction false} FetchedStep(ids: seq<string>, answers: seq<BatchResponse>, i: nat, requested: seq<seq<string>>,
                                       before: map<string, string>, after: map<string, string>)
    requires i < |ids| && FetchedUpTo(ids, answers, i, requested, before) && |requested| < |answers|
    requires answers[|requested|].ok ==>
      after == SetAll(before, EntriesOfResults(answers[|requested|].mediaItemResults.GetOr([])))
    requires !answers[|requested|].ok ==> after == before
    ensures FetchedUpTo(ids, answers, i + BatchSize, requested + [ids[i..Min(i + BatchSize, |ids|)]], after)
  {
    var requested' := requested + [ids[i..Min(i + BatchSize, |ids|)]];
    BatchesFromStep(ids, i, requested);
    UrlMapStep(answers, |requested|, before, after);
    assert answers[..|requested'|] == answers[..|requested| + 1];
  }

  /** Once the loop has passed the last id, every batch has been requested. */
  lemma {:induction false} BatchesDone(ids: seq<string>, answers: seq<BatchResponse>, i: nat, requested: seq<seq<string>>,
                                       urlMap: map<string, string>)
    requires i >= |ids| && FetchedUpTo(ids, answers, i, requested, urlMap)
    ensures requested == Batches(ids) && |requested| == NumBatches(|ids|)
    ensures urlMap == MapOf(AllEntries(answers[..|requested|]))
  {
    assert requested + [] == requested;
    BatchCount(ids, 0);
  }

  lemma {:induction false} BatchesFromStep(ids: seq<string>, i: nat, before: seq<seq<string>>)
    requires i < |ids| && before + BatchesFrom(ids, i) == Batches(ids)
    ensures (before + [ids[i..Min(i + BatchSize, |ids|)]]) + BatchesFrom(ids, i + BatchSize) == Batches(ids)
    ensures |before| < NumBatches(|ids|)
  {
    var x := ids[i..Min(i + BatchSize, |ids|)];
    var rest := BatchesFrom(ids, i + BatchSize);
    assert BatchesFrom(ids, i) == [x] + rest;
    assert (before + [x]) + rest == before + ([x] + rest);
    BatchCount(ids, 0);
  }

  /** One batch answer: an `ok` one sets its entries, any other sets nothing. */
  lemma {:induction false} UrlMapStep(answers: seq<BatchResponse>, b: nat, before: map<string, string>,
                                      after: map<string, string>)
    requires b < |answers| && before == MapOf(AllEntries(answers[..b]))
    requires answers[b].ok ==> after == SetAll(before, EntriesOfResults(answers[b].mediaItemResults.GetOr([])))
    requires !answers[b].ok ==> after == before
    ensures after == MapOf(AllEntries(answers[..b + 1]))
  {
    AllEntriesStep(answers, b);
    SetAllAppend(map[], AllEntries(answers[..b]), EntriesOf(answers[b]));
    if !answers[b].ok {
      assert AllEntries(answers[..b]) + EntriesOf(answers[b]) == AllEntries(answers[..b]);
    }
  }

  lemma {:induction false} AllEntriesStep(answers: seq<BatchResponse>, b: nat)
    requires b < |answers|
    ensures AllEntries(answers[..b + 1]) == AllEntries(answers[..b]) + EntriesOf(answers[b])
  {
    assert answers[..b + 1][..b] == answers[..b];
  }

  lemma {:induction false} EntriesOfResultsStep(results: seq<MediaItemResult>, j: nat)
    requires j < |results|
    ensures var r := results[j];
      EntriesOfResults(results[..j + 1]) == EntriesOfResults(results[..j])
        + (if r.mediaItem.Some? then [UrlEntry(r.mediaItem.value.id, r.mediaItem.value.baseUrl + SizeSuffix)] else [])
  {
    assert results[..j + 1][..j] == results[..j];
  }

  lemma {:induction false} SetAllSnoc(m: map<string, string>, es: seq<UrlEntry>, e: UrlEntry)
    ensures SetAll(m, es + [e]) == SetAll(m, es)[e.id := e.url]
  {
    assert (es + [e])[..|es|] == es;
  }

  lemma {:induction false} SetAllAppend(m: map<string, string>, a: seq<UrlEntry>, b: seq<UrlEntry>)
    ensures SetAll(m, a + b) == SetAll(SetAll(m, a), b)
    decreases |b|
  {
    if b == [] {
      assert a + b == a;
    } else {
      var init := b[..|b| - 1];
      var e := b[|b| - 1];
      SetAllAppend(m, a, init);
      assert a + b == (a + init) + [e];
      assert b == init + [e];
      SetAllSnoc(m, a + init, e);
      SetAllSnoc(SetAll(m, a), init, e);
    }
  }

  /** The inner loop of getFreshUrls: one `set` per result carrying a media item. */
  method RecordResults(urlMap: map<string, string>, results: seq<MediaItemResult>) returns (m: map<string, string>)
    ensures m == SetAll(urlMap, EntriesOfResults(results))
  {
    m := urlMap;
    var j := 0;
    assert results[..0] == [];
    while j < |results|
      invariant j <= |results|
      invariant m == SetAll(urlMap, EntriesOfResults(results[..j]))
    {
      var result := results[j];
      EntriesOfResultsStep(results, j);
      if result.mediaItem.Some? {
        var e := UrlEntry(result.mediaItem.value.id, result.mediaItem.value.baseUrl + SizeSuffix);
        SetAllSnoc(urlMap, EntriesOfResults(results[..j]), e);
        m := m[result.mediaItem.value.id := result.mediaItem.value.baseUrl + SizeSuffix];
      } else {
        assert EntriesOfResults(results[..j + 1]) == EntriesOfResults(results[..j]);
      }
      j := j + 1;
    }
    assert results[..j] == results;
  }

  /** Concatenating the batches gives back the ids, in order. */
  lemma {:induction false} BatchesCover(ids: seq<string>, i: nat)
    requires i <= |ids|
    ensures Flatten(BatchesFrom(ids, i)) == ids[i..]
    decreases |ids| - i
  {
    if i < |ids| {
      var k := Min(i + BatchSize, |ids|);
      BatchesCover(ids, k);
      var bs := BatchesFrom(ids, i);
      assert bs[1..] == BatchesFrom(ids, i + BatchSize);
      if i + BatchSize > |ids| {
        assert BatchesFrom(ids, i + BatchSize) == [];
      }
      assert Flatten(bs) == bs[0] + Flatten(bs[1..]);
      assert ids[i..] == ids[i..k] + ids[k..];
    }
  }

  /** Every batch holds between 1 and 50 ids, and there are
      ceil(n / 50) of them. */
  lemma {:induction false} BatchesShape(ids: seq<string>, i: nat)
    requires i <= |ids|
    ensures |BatchesFrom(ids, i)| == NumBatches(|ids| - i)
    ensures forall b :: b in BatchesFrom(ids, i) ==> 0 < |b| <= BatchSize
    decreases |ids| - i
  {
    BatchCount(ids, i);
    if i < |ids| {
      if i + BatchSize <= |ids| {
        BatchesShape(ids, i + BatchSize);
      } else {
        assert BatchesFrom(ids, i + BatchSize) == [];
      }
    }
  }

  /** The number of batches from `i` on. */
  lemma {:induction false} BatchCount(ids: seq<string>, i: nat)
    ensures |BatchesFrom(ids, i)| == (if i <= |ids| then NumBatches(|ids| - i) else 0)
    decreases |ids| - i
  {
    if i < |ids| {
      BatchCount(ids, i + BatchSize);
      if i + BatchSize <= |ids| {
        assert NumBatches(|ids| - i) == NumBatches(|ids| - (i + BatchSize)) + 1;
      }
    }
  }

  lemma {:induction false} EntriesOfResultsMember(results: seq<MediaItemResult>, e: UrlEntry)
    ensures e in EntriesOfResults(results) <==>
      exists r :: r in results && r.mediaItem.Some? && e == UrlEntry(r.mediaItem.value.id, r.mediaItem.value.baseUrl + SizeSuffix)
    decreases |results|
  {
    if results != [] {
      var init := results[..|results| - 1];
      EntriesOfResultsMember(init, e);
      assert results == init + [results[|results| - 1]];
    }
  }

  lemma {:induction false} AllEntriesMember(answers: seq<BatchResponse>, e: UrlEntry)
    ensures e in AllEntries(answers) <==> exists b :: 0 <= b < |answers| && e in EntriesOf(answers[b])
    decreases |answers|
  {
    if answers != [] {
      var init := answers[..|answers| - 1];
      AllEntriesMember(init, e);
      if e in AllEntries(init) {
        var b :| 0 <= b < |init| && e in EntriesOf(init[b]);
        assert answers[b] == init[b];
      }
      if exists b :: 0 <= b < |answers| && e in EntriesOf(answers[b]) {
        var b :| 0 <= b < |answers| && e in EntriesOf(answers[b]);
        if b < |init| {
          assert init[b] == answers[b];
        }
      }
    }
  }

  /** The map holds exactly the ids set, each bound to the LAST url set for it. */
  lemma {:induction false} MapOfLastWins(es: seq<UrlEntry>, id: string)
    ensures id in MapOf(es) <==> exists k :: 0 <= k < |es| && es[k].id == id
    ensures id in MapOf(es) ==>
      exists k :: 0 <= k < |es| && es[k].id == id && MapOf(es)[id] == es[k].url
        && forall l :: k < l < |es| ==> es[l].id != id
    decreases |es|
  {
    if es != [] {
      var n := |es| - 1;
      var init := es[..n];
      MapOfLastWins(init, id);
      if es[n].id != id && id in MapOf(es) {
        var k :| 0 <= k < |init| && init[k].id == id && MapOf(init)[id] == init[k].url
          && forall l :: k < l < |init| ==> init[l].id != id;
        assert es[k] == init[k];
        assert forall l :: k < l < |es| ==> es[l].id != id;
      }
      if exists k :: 0 <= k < |es| && es[k].id == id {
        var k :| 0 <= k < |es| && es[k].id == id;
        if k < n {
          assert init[k] == es[k];
        }
      }
    }
  }

  /** An id is resolved exactly when some `ok` answer among the batches
      sent carries a media item with that id; its URL is then that
      item's base URL with the size suffix. */
  lemma {:induction false} ResolvedIds(ids: seq<string>, answers: seq<BatchResponse>, id: string)
    requires |answers| >= NumBatches(|ids|)
    ensures var urls := MapOf(AllEntries(answers[..NumBatches(|ids|)]));
      id in urls <==>
        exists b, r :: 0 <= b < NumBatches(|ids|) && answers[b].ok && r in answers[b].mediaItemResults.GetOr([])
          && r.mediaItem.Some? && r.mediaItem.value.id == id
    ensures var urls := MapOf(AllEntries(answers[..NumBatches(|ids|)]));
      id in urls ==>
        exists b, r :: 0 <= b < NumBatches(|ids|) && answers[b].ok && r in answers[b].mediaItemResults.GetOr([])
          && r.mediaItem.Some? && r.mediaItem.value.id == id && urls[id] == r.mediaItem.value.baseUrl + SizeSuffix
  {
    var n := NumBatches(|ids|);
    UrlHasSource(answers, n, id);
    SourceHasUrl(answers, n, id);
  }

  /** Every URL in the map comes from an item of an `ok` answer among the first `n`. */
  lemma {:induction false} UrlHasSource(answers: seq<BatchResponse>, n: nat, id: string)
    requires n <= |answers|
    ensures var urls := MapOf(AllEntries(answers[..n]));
      id in urls ==>
        exists b, r :: 0 <= b < n && answers[b].ok && r in answers[b].mediaItemResults.GetOr([])
          && r.mediaItem.Some? && r.mediaItem.value.id == id && urls[id] == r.mediaItem.value.baseUrl + SizeSuffix
  {
    var sent := answers[..n];
    var es := AllEntries(sent);
    MapOfLastWins(es, id);
    if id in MapOf(es) {
      var k :| 0 <= k < |es| && es[k].id == id && MapOf(es)[id] == es[k].url
        && forall l :: k < l < |es| ==> es[l].id != id;
      AllEntriesMember(sent, es[k]);
      var b :| 0 <= b < n && es[k] in EntriesOf(sent[b]);
      EntriesOfResultsMember(answers[b].mediaItemResults.GetOr([]), es[k]);
    }
  }

  /** Every item of an `ok` answer among the first `n` has its id in the map. */
  lemma {:induction false} SourceHasUrl(answers: seq<BatchResponse>, n: nat, id: string)
    requires n <= |answers|
    ensures (exists b, r :: 0 <= b < n && answers[b].ok && r in answers[b].mediaItemResults.GetOr([])
               && r.mediaItem.Some? && r.mediaItem.value.id == id)
      ==> id in MapOf(AllEntries(answers[..n]))
  {
    var sent := answers[..n];
    var es := AllEntries(sent);
    MapOfLastWins(es, id);
    if exists b, r :: 0 <= b < n && answers[b].ok && r in answers[b].mediaItemResults.GetOr([])
        && r.mediaItem.Some? && r.mediaItem.value.id == id {
      var b, r :| 0 <= b < n && answers[b].ok && r in answers[b].mediaItemResults.GetOr([])
        && r.mediaItem.Some? && r.mediaItem.value.id == id;
      var e := UrlEntry(id, r.mediaItem.value.baseUrl + SizeSuffix);
      EntriesOfResultsMember(answers[b].mediaItemResults.GetOr([]), e);
      assert sent[b] == answers[b];
      AllEntriesMember(sent, e);
      var k :| 0 <= k < |es| && es[k] == e;
    }
  }
}
