/** app/api/captions/route.ts: reading and editing the user captions.
    The request body is a parsed JSON value; its two fields are checked
    with JavaScript truthiness and `typeof`, and the photo id becomes a
    property key of the caption record. */
module CaptionsRoute {
  import opened JsBuiltins
  import opened Storage

  /** The JavaScript values a JSON body can produce (arrays and
      fractional numbers aside), plus `undefined` for a missing field. */
  datatype JsValue =
    | JUndefined
    | JNull
    | JBool(b: bool)
    | JNumber(n: int)
    | JString(s: string)
    | JObject(fields: map<string, JsValue>)

  /** `request.json()`: either the body does not parse, or it is a value. */
  datatype Body = Unparsable | Json(value: JsValue)

  /** JavaScript truthiness: `undefined`, `null`, `false`, `0` and `""`
      are falsy. */
  predicate Truthy(v: JsValue) {
    match v
    case JUndefined => false
    case JNull => false
    case JBool(b) => b
    case JNumber(n) => n != 0
    case JString(s) => s != ""
    case JObject(_) => true
  }

  /** Destructuring `{ photoId, caption }` throws a TypeError on these. */
  predicate Nullish(v: JsValue) {
    v.JUndefined? || v.JNull?
  }

  /** A property read on a non-nullish value: an own field of an object;
      `undefined` otherwise (booleans, numbers and strings have no
      `photoId` or `caption` property). */
  function Field(v: JsValue, name: string): (r: JsValue)
    requires !Nullish(v)
    ensures v.JObject? && name in v.fields ==> r == v.fields[name]
    ensures !(v.JObject? && name in v.fields) ==> r == JUndefined
  {
    match v
    case JObject(fields) => if name in fields then fields[name] else JUndefined
    case _ => JUndefined
  }

  /** The property key `captions[photoId]` writes: the string itself, the
      decimal text of a number, `"true"`/`"false"`, `"[object Object]"`. */
  function PropertyKey(v: JsValue): (r: string)
    ensures v.JString? ==> r == v.s
    ensures v.JNumber? ==> r == DecimalString(v.n)
  {
    match v
    case JUndefined => "undefined"
    case JNull => "null"
    case JBool(b) => if b then "true" else "false"
    case JNumber(n) => DecimalString(n)
    case JString(s) => s
    case JObject(_) => "[object Object]"
  }

  /** The answers of POST. */
  datatype CaptionResponse =
    | CaptionSaved(photoId: JsValue, caption: string)
    | CaptionRequired
    | UpdateFailed

  function Status(r: CaptionResponse): int {
    match r
    case CaptionSaved(_, _) => 200
    case CaptionRequired => 400
    case UpdateFailed => 500
  }

  /** The fields are present and usable: a truthy photo id and a string caption. */
  predicate ValidFields(v: JsValue)
    requires !Nullish(v)
  {
    Truthy(Field(v, "photoId")) && Field(v, "caption").JString?
  }

  /** POST as a transition of the store: the new store and the answer.
      `writeOk` says whether the store accepted the read and the write. */
  function PostOutcome(s: StoreState, body: Body, writeOk: bool): (r: (StoreState, CaptionResponse))
    ensures r.1.CaptionSaved? <==> body.Json? && !Nullish(body.value) && ValidFields(body.value) && writeOk
    ensures r.1.CaptionRequired? <==> body.Json? && !Nullish(body.value) && !ValidFields(body.value)
    ensures r.1.CaptionSaved? ==>
      r.0 == WithCaption(s, PropertyKey(Field(body.value, "photoId")), Field(body.value, "caption").s)
      && r.1 == CaptionSaved(Field(body.value, "photoId"), Field(body.value, "caption").s)
    ensures !r.1.CaptionSaved? ==> r.0 == s
  {
    if body.Unparsable? || Nullish(body.value) then (s, UpdateFailed)
    else
      var photoId := Field(body.value, "photoId");
      var caption := Field(body.value, "caption");
      if !Truthy(photoId) || !caption.JString? then (s, CaptionRequired)
      else if !writeOk then (s, UpdateFailed)
      else (WithCaption(s, PropertyKey(photoId), caption.s), CaptionSaved(photoId, caption.s))
  }

  /** GET /api/captions: every user caption (`{}` when none was set). */
  method Get(store: KvStore) returns (captions: map<string, string>)
    ensures captions == CaptionsOf(store.State())
  {
    captions := CaptionsOf(store.State());
  }

  /** POST /api/captions. */
  method Post(store: KvStore, body: Body, writeOk: bool) returns (response: CaptionResponse)
    modifies store
    ensures (store.State(), response) == PostOutcome(old(store.State()), body, writeOk)
  {
    if body.Unparsable? || Nullish(body.value) {
      return UpdateFailed;
    }
    var photoId := Field(body.value, "photoId");
    var caption := Field(body.value, "caption");
    if !Truthy(photoId) || !caption.JString? {
      return CaptionRequired;
    }
    if !writeOk {
      return UpdateFailed;
    }
    store.SetCaption(PropertyKey(photoId), caption.s);
    return CaptionSaved(photoId, caption.s);
  }

  /** The body `{ photoId, caption }` as an object. */
  function Request(photoId: JsValue, caption: JsValue): JsValue {
    JObject(map["photoId" := photoId, "caption" := caption])
  }

  /** A saved caption is what a later GET returns for that photo, and
      the other photos keep theirs. */
  lemma {:induction false} SavedCaptionIsRead(s: StoreState, photoId: string, caption: string, other: string)
    requires photoId != "" && other != photoId
    ensures var r := PostOutcome(s, Json(Request(JString(photoId), JString(caption))), true);
      r.1 == CaptionSaved(JString(photoId), caption)
      && photoId in CaptionsOf(r.0) && CaptionsOf(r.0)[photoId] == caption
      && (other in CaptionsOf(r.0) <==> other in CaptionsOf(s))
      && (other in CaptionsOf(s) ==> CaptionsOf(r.0)[other] == CaptionsOf(s)[other])
  {
    var v := Request(JString(photoId), JString(caption));
    assert Field(v, "photoId") == JString(photoId);
    assert Field(v, "caption") == JString(caption);
  }

  /** The empty caption passes the check (only the id must be truthy)
      and is stored as such. */
  lemma {:induction false} EmptyCaptionStored(s: StoreState, photoId: string)
    requires photoId != ""
    ensures var r := PostOutcome(s, Json(Request(JString(photoId), JString(""))), true);
      Status(r.1) == 200 && CaptionsOf(r.0)[photoId] == ""
  {
    SavedCaptionIsRead(s, photoId, "", photoId + "x");
  }

  /** A missing, empty or zero photo id, or a caption that is not a
      string, is answered 400 and leaves the store alone. */
  lemma {:induction false} RejectedBodies(s: StoreState, photoId: JsValue, caption: JsValue, writeOk: bool)
    requires !Truthy(photoId) || !caption.JString?
    ensures var r := PostOutcome(s, Json(Request(photoId, caption)), writeOk);
      Status(r.1) == 400 && r.0 == s
  {
    var v := Request(photoId, caption);
    assert Field(v, "photoId") == photoId;
    assert Field(v, "caption") == caption;
  }

  /** A body that does not parse, or parses to `null`, is answered 500. */
  lemma {:induction false} UnusableBodies(s: StoreState, body: Body, writeOk: bool)
    requires body.Unparsable? || body == Json(JNull)
    ensures PostOutcome(s, body, writeOk) == (s, UpdateFailed)
  {
  }

  /** A numeric photo id writes the same key as its decimal text. */
  lemma {:induction false} NumericIdSameKey(s: StoreState, n: int, caption: string)
    requires n != 0
    ensures PostOutcome(s, Json(Request(JNumber(n), JString(caption))), true).0
         == PostOutcome(s, Json(Request(JString(DecimalString(n)), JString(caption))), true).0
  {
    var a := Request(JNumber(n), JString(caption));
    var b := Request(JString(DecimalString(n)), JString(caption));
    assert Field(a, "photoId") == JNumber(n) && Field(a, "caption") == JString(caption);
    assert Field(b, "photoId") == JString(DecimalString(n)) && Field(b, "caption") == JString(caption);
    assert DecimalString(n) != "";
  }

  /** Posting the same body twice leaves the store as posting it once. */
  lemma {:induction false} PostIdempotent(s: StoreState, body: Body)
    ensures var once := PostOutcome(s, body, true);
      PostOutcome(once.0, body, true) == once
  {
    var once := PostOutcome(s, body, true);
    if once.1.CaptionSaved? {
      SetCaptionIdempotent(s, PropertyKey(Field(body.value, "photoId")), Field(body.value, "caption").s);
    }
  }
}
