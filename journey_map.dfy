/** components/JourneyMap.tsx: the timeline filter and statistics, which
    are expressions over the loaded data, and the component's state (the
    loaded data, the selected year and the lightbox), which its handlers
    replace step by step. */
module JourneyMap {
  import opened Wrappers
  import opened Types
  import opened Seqs
  import opened Lightbox

  // ---------------------------------------------------------------------------
  // Derived values
  // ---------------------------------------------------------------------------

  /** `l.year <= currentYear`. */
  predicate Reached(currentYear: int, l: Location) {
    l.year <= currentYear
  }

  /** `data?.locations.filter(l => l.year <= currentYear) || []`. */
  function VisibleLocations(data: Option<PhotosApiResponse>, currentYear: int): (r: seq<Location>)
    ensures data.None? ==> r == []
    ensures |r| <= |data.GetOr(PhotosApiResponse([], [], "")).locations|
    ensures forall l :: l in r <==> data.Some? && l in data.value.locations && l.year <= currentYear
  {
    if data.None? then [] else Filter((l: Location) => Reached(currentYear, l), data.value.locations)
  }

  /** Moving the slider forward never hides a location. */
  lemma {:induction false} VisibleGrows(data: Option<PhotosApiResponse>, y1: int, y2: int, l: Location)
    requires y1 <= y2 && l in VisibleLocations(data, y1)
    ensures l in VisibleLocations(data, y2)
  {
  }

  /** With the slider at or past every location's year, all are visible, in order. */
  lemma {:induction false} AllVisible(ls: seq<Location>, currentYear: int)
    requires forall l :: l in ls ==> l.year <= currentYear
    ensures VisibleLocations(Some(PhotosApiResponse(ls, [], "")), currentYear) == ls
  {
    FilterAll((l: Location) => Reached(currentYear, l), ls);
  }

  /** `data?.years || []`. */
  function YearsOf(data: Option<PhotosApiResponse>): (r: seq<int>)
    ensures data.None? ==> r == []
    ensures data.Some? ==> r == data.value.years
  {
    if data.Some? then data.value.years else []
  }

  /** `Math.min(...years)` of a non-empty list. */
  function SeqMin(s: seq<int>): (m: int)
    requires |s| > 0
    ensures m in s && forall x :: x in s ==> m <= x
  {
    if |s| == 1 then s[0]
    else
      var rest := SeqMin(s[1..]);
      assert forall x :: x in s ==> x == s[0] || x in s[1..];
      if s[0] <= rest then s[0] else rest
  }

  /** `Math.max(...years)` of a non-empty list. */
  function SeqMax(s: seq<int>): (m: int)
    requires |s| > 0
    ensures m in s && forall x :: x in s ==> x <= m
  {
    if |s| == 1 then s[0]
    else
      var rest := SeqMax(s[1..]);
      assert forall x :: x in s ==> x == s[0] || x in s[1..];
      if s[0] >= rest then s[0] else rest
  }

  /** The lower end of the slider: the least year, or the current year when there are none. */
  function MinYear(years: seq<int>, currentYear: int): (r: int)
    ensures |years| == 0 ==> r == currentYear
    ensures |years| > 0 ==> r in years && forall y :: y in years ==> r <= y
  {
    if |years| > 0 then SeqMin(years) else currentYear
  }

  /** The upper end of the slider: the greatest year, or the current year when there are none. */
  function MaxYear(years: seq<int>, currentYear: int): (r: int)
    ensures |years| == 0 ==> r == currentYear
    ensures |years| > 0 ==> r in years && forall y :: y in years ==> y <= r
  {
    if |years| > 0 then SeqMax(years) else currentYear
  }

  /** The slider bounds are ordered. */
  lemma {:induction false} SliderBoundsOrdered(years: seq<int>, currentYear: int)
    ensures MinYear(years, currentYear) <= MaxYear(years, currentYear)
  {
    if |years| > 0 {
      assert MinYear(years, currentYear) <= years[0] <= MaxYear(years, currentYear);
    }
  }

  predicate IsTogether(l: Location) {
    l.ltype == Together
  }

  /** The number of visible places the two visited together. */
  function TogetherCount(ls: seq<Location>): (r: nat)
    ensures r <= |ls|
    ensures r == 0 <==> forall l :: l in ls ==> l.ltype != Together
  {
    var together := Filter((l: Location) => IsTogether(l), ls);
    assert together != [] ==> together[0] in together;
    |together|
  }

  /** `reduce((acc, l) => acc + l.photos.length, 0)`, accumulated left to right. */
  function TotalPhotos(ls: seq<Location>): (r: nat)
    ensures forall l :: l in ls ==> |l.photos| <= r
    ensures r == 0 <==> forall l :: l in ls ==> l.photos == []
  {
    if ls == [] then 0
    else
      var init := ls[..|ls| - 1];
      assert forall l :: l in ls ==> l in init || l == ls[|ls| - 1];
      TotalPhotos(init) + |ls[|ls| - 1].photos|
  }

  /** The counters add up over consecutive parts of the list. */
  lemma {:induction false} TotalPhotosAppend(a: seq<Location>, b: seq<Location>)
    ensures TotalPhotos(a + b) == TotalPhotos(a) + TotalPhotos(b)
    decreases |b|
  {
    if b == [] {
      assert a + b == a;
    } else {
      var n := |b| - 1;
      assert (a + b)[..|a + b| - 1] == a + b[..n];
      TotalPhotosAppend(a, b[..n]);
    }
  }

  /** One place counts once exactly when both of them were there. */
  lemma {:induction false} TogetherCountSingle(l: Location)
    ensures TogetherCount([l]) == if l.ltype == Together then 1 else 0
  {
    assert Filter((l: Location) => IsTogether(l), [l]) == Filter((l: Location) => IsTogether(l), []) + (if IsTogether(l) then [l] else []);
  }

  lemma {:induction false} TogetherCountAppend(a: seq<Location>, b: seq<Location>)
    ensures TogetherCount(a + b) == TogetherCount(a) + TogetherCount(b)
  {
    FilterAppend((l: Location) => IsTogether(l), a, b);
  }

  /** Every location the API returns has a photo, so there are at least
      as many memories as places. */
  lemma {:induction false} TotalPhotosAtLeastPlaces(ls: seq<Location>)
    requires forall l :: l in ls ==> |l.photos| > 0
    ensures TotalPhotos(ls) >= |ls|
    decreases |ls|
  {
    if ls != [] {
      var init := ls[..|ls| - 1];
      assert forall l :: l in init ==> l in ls;
      TotalPhotosAtLeastPlaces(init);
      assert ls[|ls| - 1] in ls;
    }
  }

  // ---------------------------------------------------------------------------
  // The lightbox state and its transitions
  // ---------------------------------------------------------------------------

  /** The lightbox record the component keeps. */
  datatype LightboxState = LightboxState(open: bool, photos: seq<Photo>, index: Index, location: string)

  const Closed: LightboxState := LightboxState(false, [], Num(0), "")

  /** `a % n` of JavaScript on integers: the sign follows `a`, and
      `n == 0` gives NaN. */
  function JsRem(a: Index, n: int): (r: Index)
    ensures a.Num? && n > 0 && a.i >= 0 ==> r == Num(a.i % n)
    ensures n == 0 || a.NaN? ==> r == NaN
  {
    if a.NaN? || n == 0 then NaN
    else
      var m := if n < 0 then -n else n;
      Num(if a.i >= 0 then a.i % m else -((-a.i) % m))
  }

  /** `openLightbox(location)`. */
  function Opened(location: Location): (r: LightboxState)
    ensures r.open && r.index == Num(0) && r.photos == location.photos && r.location == location.name
  {
    LightboxState(true, location.photos, Num(0), location.name)
  }

  /** `onClose`: only `open` changes. */
  function ClosedFrom(lb: LightboxState): (r: LightboxState)
    ensures !r.open && r.photos == lb.photos && r.index == lb.index && r.location == lb.location
  {
    lb.(open := false)
  }

  /** `onNext`: `(index + 1) % photos.length`. */
  function NextFrom(lb: LightboxState): (r: LightboxState)
    ensures r.open == lb.open && r.photos == lb.photos && r.location == lb.location
    ensures InRange(lb) ==> r.index == Num((lb.index.i + 1) % |lb.photos|)
    ensures |lb.photos| == 0 ==> r.index == NaN
  {
    lb.(index := JsRem(Succ(lb.index), |lb.photos|))
  }

  /** `onPrev`: `(index - 1 + photos.length) % photos.length`. */
  function PrevFrom(lb: LightboxState): (r: LightboxState)
    ensures r.open == lb.open && r.photos == lb.photos && r.location == lb.location
    ensures InRange(lb) ==> r.index == Num((lb.index.i - 1 + |lb.photos|) % |lb.photos|)
    ensures |lb.photos| == 0 ==> r.index == NaN
  {
    var back := match lb.index
      case Num(i) => Num(i - 1 + |lb.photos|)
      case NaN => NaN;
    lb.(index := JsRem(back, |lb.photos|))
  }

  /** The index points at a photo. */
  predicate InRange(lb: LightboxState) {
    lb.index.Num? && 0 <= lb.index.i < |lb.photos|
  }

  /** Next and previous keep an in-range index in range and move it by one
      around the circle; everything else stays. */
  lemma {:induction false} StepsStayInRange(lb: LightboxState)
    requires InRange(lb)
    ensures var n := |lb.photos|;
      InRange(NextFrom(lb)) && NextFrom(lb).index.i == (lb.index.i + 1) % n
      && InRange(PrevFrom(lb)) && PrevFrom(lb).index.i == (lb.index.i - 1 + n) % n
      && NextFrom(lb).(index := lb.index) == lb && PrevFrom(lb).(index := lb.index) == lb
  {
  }

  /** Next and previous undo each other. */
  lemma {:induction false} NextPrevInverse(lb: LightboxState)
    requires InRange(lb)
    ensures PrevFrom(NextFrom(lb)) == lb && NextFrom(PrevFrom(lb)) == lb
  {
    var n := |lb.photos|;
    var i := lb.index.i;
    if i + 1 < n {
      ModBelow(i + 1, n);
      ModOnce(i + n, n);
    } else {
      ModOnce(n, n);
      ModBelow(n - 1, n);
    }
    if i > 0 {
      ModOnce(i - 1 + n, n);
      ModBelow(i, n);
    } else {
      ModBelow(n - 1, n);
      ModOnce(n, n);
    }
  }

  lemma {:induction false} ModBelow(x: int, n: int)
    requires 0 <= x < n
    ensures x % n == x
  {
  }

  lemma {:induction false} ModOnce(x: int, n: int)
    requires n <= x < 2 * n
    ensures x % n == x - n
  {
  }

  /** Going forward `k` times moves the index `k` places around the circle. */
  lemma {:induction false} NextCycle(lb: LightboxState, k: nat)
    requires InRange(lb) && k <= |lb.photos|
    ensures var n := |lb.photos|;
      InRange(NextTimes(lb, k))
      && NextTimes(lb, k).index.i == (if lb.index.i + k < n then lb.index.i + k else lb.index.i + k - n)
      && NextTimes(lb, k).(index := lb.index) == lb
    decreases k
  {
    if k > 0 {
      NextCycle(lb, k - 1);
      var n := |lb.photos|;
      var v := NextTimes(lb, k - 1).index.i;
      if v + 1 < n {
        ModBelow(v + 1, n);
      } else {
        ModOnce(v + 1, n);
      }
    }
  }

  /** Going forward once per photo comes back to the start. */
  lemma {:induction false} FullCircle(lb: LightboxState)
    requires InRange(lb)
    ensures NextTimes(lb, |lb.photos|) == lb
  {
    NextCycle(lb, |lb.photos|);
  }

  function NextTimes(lb: LightboxState, k: nat): LightboxState {
    if k == 0 then lb else NextFrom(NextTimes(lb, k - 1))
  }

  /** With no photos the modulo is NaN: the index is lost. */
  lemma {:induction false} EmptyStepIsNaN(lb: LightboxState)
    requires |lb.photos| == 0
    ensures NextFrom(lb).index == NaN && PrevFrom(lb).index == NaN
  {
  }

  /** A key press on the open lightbox: the action the handler picks, applied. */
  function OnKey(lb: LightboxState, key: string): (r: LightboxState)
    ensures !lb.open ==> r == lb
    ensures lb.open && key == "Escape" ==> r == ClosedFrom(lb)
    ensures lb.open && key == "ArrowRight" ==> r == NextFrom(lb)
    ensures lb.open && key == "ArrowLeft" ==> r == PrevFrom(lb)
    ensures key !in ["Escape", "ArrowRight", "ArrowLeft"] ==> r == lb
  {
    match HandleKeyDown(lb.open, key)
    case Ignore => lb
    case CloseAction => ClosedFrom(lb)
    case NextAction => NextFrom(lb)
    case PrevAction => PrevFrom(lb)
  }

  /** Right arrow then left arrow returns to the same photo. */
  lemma {:induction false} ArrowsCancel(lb: LightboxState)
    requires lb.open && InRange(lb)
    ensures OnKey(OnKey(lb, "ArrowRight"), "ArrowLeft") == lb
  {
    NextPrevInverse(lb);
    assert "ArrowRight" != "Escape" && "ArrowLeft" != "Escape" && "ArrowLeft" != "ArrowRight";
  }

  /** A closed lightbox ignores every key. */
  lemma {:induction false} ClosedIgnoresKeys(lb: LightboxState, key: string)
    requires !lb.open
    ensures OnKey(lb, key) == lb
  {
  }

  /** Opening on a location of the API (which always has a photo) shows
      its first photo with the counter at 1. */
  lemma {:induction false} OpenShowsFirst(location: Location)
    requires |location.photos| > 0
    ensures var lb := Opened(location);
      InRange(lb) && Render(lb.open, lb.photos, lb.index, lb.location).Some?
      && Render(lb.open, lb.photos, lb.index, lb.location).value.location == location.name
  {
  }

  // ---------------------------------------------------------------------------
  // The component
  // ---------------------------------------------------------------------------

  /** The component's state. */
  class MapState {
    var data: Option<PhotosApiResponse>
    var currentYear: int
    var loading: bool
    var error: Option<string>
    var lightbox: LightboxState

    /** Lightbox navigation never leaves the photo list while it has photos. */
    ghost predicate Valid()
      reads this
    {
      |lightbox.photos| > 0 ==> InRange(lightbox)
    }

    /** The first render: `thisYear` is `new Date().getFullYear()`. */
    constructor(thisYear: int)
      ensures Valid()
      ensures data.None? && currentYear == thisYear && loading && error.None? && lightbox == Closed
    {
      data := None;
      currentYear := thisYear;
      loading := true;
      error := None;
      lightbox := Closed;
    }

    /** The fetch succeeded: keep the data and move the slider to the last year. */
    method Loaded(json: PhotosApiResponse)
      modifies this
      ensures data == Some(json) && !loading && error == old(error) && lightbox == old(lightbox)
      ensures |json.years| > 0 ==> currentYear == SeqMax(json.years)
      ensures |json.years| == 0 ==> currentYear == old(currentYear)
      ensures old(Valid()) ==> Valid()
    {
      data := Some(json);
      if |json.years| > 0 {
        currentYear := SeqMax(json.years);
      }
      loading := false;
    }

    /** The fetch failed: keep the message. */
    method Failed(message: string)
      modifies this
      ensures error == Some(message) && !loading
      ensures data == old(data) && currentYear == old(currentYear) && lightbox == old(lightbox)
      ensures old(Valid()) ==> Valid()
    {
      error := Some(message);
      loading := false;
    }

    /** The slider moved. */
    method SetYear(year: int)
      modifies this
      ensures currentYear == year && data == old(data) && lightbox == old(lightbox)
      ensures loading == old(loading) && error == old(error)
      ensures old(Valid()) ==> Valid()
    {
      currentYear := year;
    }

    method OpenLightbox(location: Location)
      modifies this
      ensures lightbox == Opened(location)
      ensures data == old(data) && currentYear == old(currentYear)
      ensures loading == old(loading) && error == old(error)
      ensures Valid()
    {
      lightbox := Opened(location);
    }

    method CloseLightbox()
      modifies this
      ensures lightbox == ClosedFrom(old(lightbox))
      ensures data == old(data) && currentYear == old(currentYear)
      ensures loading == old(loading) && error == old(error)
      ensures old(Valid()) ==> Valid()
    {
      lightbox := ClosedFrom(lightbox);
    }

    method NextPhoto()
      modifies this
      ensures lightbox == NextFrom(old(lightbox))
      ensures data == old(data) && currentYear == old(currentYear)
      ensures loading == old(loading) && error == old(error)
      ensures old(Valid()) ==> Valid()
    {
      lightbox := NextFrom(lightbox);
    }

    method PrevPhoto()
      modifies this
      ensures lightbox == PrevFrom(old(lightbox))
      ensures data == old(data) && currentYear == old(currentYear)
      ensures loading == old(loading) && error == old(error)
      ensures old(Valid()) ==> Valid()
    {
      lightbox := PrevFrom(lightbox);
    }

    /** What the map shows now. */
    function Visible(): seq<Location>
      reads this
    {
      VisibleLocations(data, currentYear)
    }
  }
}
