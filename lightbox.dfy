/** components/Lightbox.tsx: the key handler and what the lightbox shows,
    both functions of its props. The index is a JavaScript number, which
    can be NaN (the map component computes it with `%`). */
module Lightbox {
  import opened Wrappers
  import opened Types

  /** A JavaScript number used as an index: an integer or NaN. */
  datatype Index = Num(i: int) | NaN

  /** `index + 1`; NaN stays NaN. */
  function Succ(x: Index): Index {
    match x
    case Num(i) => Num(i + 1)
    case NaN => NaN
  }

  /** The callback a key press triggers. */
  datatype Action = Ignore | CloseAction | NextAction | PrevAction

  /** `handleKeyDown`: nothing while closed; Escape closes, the right
      arrow goes forward, the left arrow back, any other key is ignored. */
  function HandleKeyDown(open: bool, key: string): (r: Action)
    ensures !open ==> r == Ignore
    ensures open ==> (r == CloseAction <==> key == "Escape")
    ensures open ==> (r == NextAction <==> key == "ArrowRight")
    ensures open ==> (r == PrevAction <==> key == "ArrowLeft")
  {
    if !open then Ignore
    else if key == "Escape" then CloseAction
    else if key == "ArrowRight" then NextAction
    else if key == "ArrowLeft" then PrevAction
    else Ignore
  }

  /** The picture area: the image with its alternative text, or the
      "Photo unavailable" placeholder. */
  datatype Picture = Image(src: string, alt: string) | Placeholder

  /** What an open lightbox shows. `counter` is `(currentIndex + 1, length)`. */
  datatype View = View(
    navigation: bool,
    picture: Picture,
    location: string,
    caption: Option<string>,
    counter: Option<(Index, nat)>)

  /** `photos[currentIndex]`: undefined for NaN or an index out of range. */
  function CurrentPhoto(photos: seq<Photo>, index: Index): (r: Option<Photo>)
    ensures r.Some? <==> index.Num? && 0 <= index.i < |photos|
    ensures r.Some? ==> r.value == photos[index.i]
  {
    if index.Num? && 0 <= index.i < |photos| then Some(photos[index.i]) else None
  }

  /** The rendered lightbox, or `None` when it renders nothing. */
  function Render(open: bool, photos: seq<Photo>, index: Index, location: string): (r: Option<View>)
    ensures r.None? <==> !open || |photos| == 0
  {
    if !open || |photos| == 0 then None
    else
      var current := CurrentPhoto(photos, index);
      var picture :=
        if current.Some? && current.value.url.Some? && current.value.url.value != "" then
          Image(current.value.url.value, if current.value.caption != "" then current.value.caption else "Photo")
        else Placeholder;
      var caption :=
        if current.Some? && current.value.caption != "" then Some(current.value.caption) else None;
      Some(View(|photos| > 1, picture, location, caption, if |photos| > 1 then Some((Succ(index), |photos|)) else None))
  }

  /** The controls and the counter appear exactly when there is more than
      one photo; the counter reads `index + 1` of the photo count. */
  lemma {:induction false} NavigationWithSeveralPhotos(photos: seq<Photo>, index: Index, location: string)
    requires |photos| > 0
    ensures var v := Render(true, photos, index, location).value;
      (v.navigation <==> |photos| > 1) && (v.counter.Some? <==> |photos| > 1)
      && (v.counter.Some? ==> v.counter.value == (Succ(index), |photos|))
      && v.location == location
  {
  }

  /** For an index in range the counter lies between 1 and the count. */
  lemma {:induction false} CounterInRange(photos: seq<Photo>, i: int, location: string)
    requires |photos| > 1 && 0 <= i < |photos|
    ensures var c := Render(true, photos, Num(i), location).value.counter.value;
      c.0.Num? && 1 <= c.0.i <= c.1 && c.1 == |photos|
  {
  }

  /** The image is shown exactly when the current photo has a non-empty
      URL; its alternative text is the caption, or `Photo` when that is
      empty. The caption line appears exactly when the caption is non-empty. */
  lemma {:induction false} PictureOfCurrent(photos: seq<Photo>, i: int, location: string)
    requires 0 <= i < |photos|
    ensures var v := Render(true, photos, Num(i), location).value;
      var p := photos[i];
      (v.picture.Image? <==> p.url.Some? && p.url.value != "")
      && (v.picture.Image? ==>
            v.picture.src == p.url.value && v.picture.alt == (if p.caption != "" then p.caption else "Photo"))
      && (v.caption.Some? <==> p.caption != "")
      && (v.caption.Some? ==> v.caption.value == p.caption)
  {
  }

  /** A NaN or out-of-range index shows the placeholder and no caption. */
  lemma {:induction false} NoCurrentPhoto(photos: seq<Photo>, index: Index, location: string)
    requires |photos| > 0 && !(index.Num? && 0 <= index.i < |photos|)
    ensures var v := Render(true, photos, index, location).value;
      v.picture == Placeholder && v.caption.None?
  {
  }
}
