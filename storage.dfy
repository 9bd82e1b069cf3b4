/** lib/storage.ts: a key-value store with four slots (locations,
    photos, user captions and sync metadata). Every slot is absent until
    its first write; a write replaces the whole value of its slot. */
module Storage {
  import opened Wrappers
  import opened Types
  import opened Seqs

  /** The contents of the four slots. */
  datatype StoreState = StoreState(
    locations: Option<seq<StoredLocation>>,
    photos: Option<seq<StoredPhoto>>,
    captions: Option<map<string, string>>,
    meta: Option<JourneyMeta>)

  /** getLocations: the stored list, or `[]` when the slot is absent. */
  function LocationsOf(s: StoreState): (r: seq<StoredLocation>)
    ensures s.locations.None? ==> r == []
    ensures s.locations.Some? ==> r == s.locations.value
  {
    s.locations.GetOr([])
  }

  /** getPhotos: the stored list, or `[]` when the slot is absent. */
  function PhotosOf(s: StoreState): (r: seq<StoredPhoto>)
    ensures s.photos.None? ==> r == []
    ensures s.photos.Some? ==> r == s.photos.value
  {
    s.photos.GetOr([])
  }

  /** getCaptions: the stored map, or `{}` when the slot is absent. */
  function CaptionsOf(s: StoreState): (r: map<string, string>)
    ensures s.captions.None? ==> r == map[]
    ensures s.captions.Some? ==> r == s.captions.value
  {
    s.captions.GetOr(map[])
  }

  /** setCaption as a transition: the caption map (`{}` when absent) with
      one key set, written back whole. */
  function WithCaption(s: StoreState, photoId: string, caption: string): (r: StoreState)
    ensures r.captions.Some? && photoId in r.captions.value && r.captions.value[photoId] == caption
    ensures r.locations == s.locations && r.photos == s.photos && r.meta == s.meta
    ensures forall k :: k != photoId ==>
      (k in r.captions.value <==> k in CaptionsOf(s))
      && (k in CaptionsOf(s) ==> r.captions.value[k] == CaptionsOf(s)[k])
  {
    s.(captions := Some(CaptionsOf(s)[photoId := caption]))
  }

  /** Setting the same caption twice leaves the same store as setting it once. */
  lemma {:induction false} SetCaptionIdempotent(s: StoreState, photoId: string, caption: string)
    ensures WithCaption(WithCaption(s, photoId, caption), photoId, caption) == WithCaption(s, photoId, caption)
  {
    var once := WithCaption(s, photoId, caption);
    assert CaptionsOf(once)[photoId := caption] == CaptionsOf(once);
  }

  /** Captions set for different photos do not interfere. */
  lemma {:induction false} SetCaptionCommutes(s: StoreState, a: string, ca: string, b: string, cb: string)
    requires a != b
    ensures WithCaption(WithCaption(s, a, ca), b, cb) == WithCaption(WithCaption(s, b, cb), a, ca)
  {
    var m := CaptionsOf(s);
    assert m[a := ca][b := cb] == m[b := cb][a := ca];
  }

  /** `Array.prototype.find` by id: the first location with the given id. */
  function FindLocation(ls: seq<StoredLocation>, id: string): (r: Option<StoredLocation>)
    ensures r.None? <==> forall l :: l in ls ==> l.id != id
    ensures r.Some? ==> exists k :: FirstSatisfying((l: StoredLocation) => l.id == id, ls, k) && ls[k] == r.value
  {
    FindFirst((l: StoredLocation) => l.id == id, ls)
  }

  /** getPhotosForLocation: the stored photos listed by the first location
      with that id, in stored order; `[]` when no location has the id. */
  function PhotosForLocation(s: StoreState, locationId: string): (r: seq<StoredPhoto>)
    ensures (forall l :: l in LocationsOf(s) ==> l.id != locationId) ==> r == []
    ensures FindLocation(LocationsOf(s), locationId).Some? ==>
      var l := FindLocation(LocationsOf(s), locationId).value;
      forall p :: p in r <==> p in PhotosOf(s) && p.id in l.photoIds
    ensures FindLocation(LocationsOf(s), locationId).Some? ==>
      var l := FindLocation(LocationsOf(s), locationId).value;
      r == Filter((p: StoredPhoto) => p.id in l.photoIds, PhotosOf(s))
    ensures |r| <= |PhotosOf(s)|
  {
    match FindLocation(LocationsOf(s), locationId)
    case None => []
    case Some(l) => Filter((p: StoredPhoto) => p.id in l.photoIds, PhotosOf(s))
  }

  /** The store. Its methods are the writes of lib/storage.ts; the reads
      are the functions above applied to `State()`. */
  class KvStore {
    var locations: Option<seq<StoredLocation>>
    var photos: Option<seq<StoredPhoto>>
    var captions: Option<map<string, string>>
    var meta: Option<JourneyMeta>

    function State(): StoreState
      reads this
    {
      StoreState(locations, photos, captions, meta)
    }

    /** A fresh store: every slot absent. */
    constructor()
      ensures State() == StoreState(None, None, None, None)
    {
      locations := None;
      photos := None;
      captions := None;
      meta := None;
    }

    /** storeLocations: replaces the locations slot. */
    method StoreLocations(ls: seq<StoredLocation>)
      modifies this
      ensures State() == old(State()).(locations := Some(ls))
      ensures LocationsOf(State()) == ls
    {
      locations := Some(ls);
    }

    /** storePhotos: replaces the photos slot. */
    method StorePhotos(ps: seq<StoredPhoto>)
      modifies this
      ensures State() == old(State()).(photos := Some(ps))
      ensures PhotosOf(State()) == ps
    {
      photos := Some(ps);
    }

    /** storeMeta: replaces the metadata slot. */
    method StoreMeta(m: JourneyMeta)
      modifies this
      ensures State() == old(State()).(meta := Some(m))
    {
      meta := Some(m);
    }

    /** setCaption: reads the caption map, sets one key, writes it back. */
    method SetCaption(photoId: string, caption: string)
      modifies this
      ensures State() == WithCaption(old(State()), photoId, caption)
    {
      var current := CaptionsOf(State());
      current := current[photoId := caption];
      captions := Some(current);
    }
  }
}
