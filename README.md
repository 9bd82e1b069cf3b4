# Journey map: a verified model

The Journey Map shows a shared Google Photos album as places on a world
map, with a year slider. This project models its core:

- the album client (`lib/google-photos.ts`). It parses a photo caption
  into a caption text, a place and a contributor type. It lists an album
  page by page. It resolves fresh image URLs in batches of 50.
- the nightly sync (`app/api/sync/route.ts`). It lists the album, builds
  one stored photo per media item and groups the photos by place in
  first-seen order. It builds one stored location per place and writes
  photos, locations and metadata to the store.
- the photos endpoint (`app/api/photos/route.ts`). It filters the stored
  locations by year and by id, resolves URLs for their photos and joins
  everything into the answer. It drops photos without a URL and places
  without photos.
- the captions endpoint (`app/api/captions/route.ts`). It reads the user
  captions and validates and stores one caption edit.
- the key-value store (`lib/storage.ts`). Its four slots are modelled as
  a class whose methods replace one slot each.
- the map page (`components/JourneyMap.tsx`) and the lightbox
  (`components/Lightbox.tsx`). The map page's state is a class. The
  visible places, slider bounds, statistics, lightbox navigation and key
  handling are functions.

The network and the clock are parameters:

- an album listing reads a transcript of page answers;
- a URL lookup reads a transcript of batch answers;
- `now` is the ISO time of the request;
- `yearOf` stands for `new Date(takenAt).getFullYear()`.

JavaScript semantics are written out where the code relies on them:

- truthiness of `||` and `!`;
- `parseInt` (whitespace, sign, `0x` prefix, `NaN`);
- `%`, which truncates and gives `NaN` for a zero divisor;
- the string order of `Array.prototype.sort`;
- property-key coercion of `captions[photoId]`.

Files, one module each:

- `wrappers.dfy`: Option and Result.
- `seqs.dfy`: filter, flatten, first-seen distinct, find.
- `js_builtins.dfy`: the JavaScript string built-ins the code calls.
- `types.dfy`: the records of `lib/types.ts`.
- `caption_parser.dfy`, `photo_source.dfy`, `storage.dfy`, `sync_route.dfy`, `photos_route.dfy`, `captions_route.dfy`, `journey_map.dfy`, `lightbox.dfy`: the core.

## Model

| member | source | states |
|---|---|---|
| CaptionParser.BracketMatch | lib/google-photos.ts:139 | `/\[([^\]]+)\]/` finds nothing exactly when no `[..]` with non-empty, `]`-free content exists; otherwise it finds the leftmost such span |
| CaptionParser.HashtagMatch | lib/google-photos.ts:146 | `/#(\w+)/` finds nothing exactly when no `#` is followed by a word character; otherwise the result is the maximal word run after the leftmost such `#` |
| CaptionParser.ParsePhotoCaption | lib/google-photos.ts:125-161 | an absent or empty description gives an empty caption with no place and no type; every other description gets a type; a place, when present, is non-empty |
| CaptionParser.BracketCase | lib/google-photos.ts:139-143 | with a leftmost bracket at `[i..j]`, the place is the bracket text and the caption is the description without that segment, trimmed |
| CaptionParser.NoBracketCase | lib/google-photos.ts:145-149 | without a bracket the caption is the whole description and the place is the first hashtag's word |
| CaptionParser.BracketBeatsHashtag | lib/google-photos.ts:140-149 | whenever a description has both a bracket match and a hashtag, the place is the content of the leftmost bracket pair |
| CaptionParser.BracketThenHashtag | lib/google-photos.ts:140-149 | for `[name] #tag` the place is `name`, not `tag` |
| CaptionParser.HashtagStaysInCaption | lib/google-photos.ts:142-148 | a hashtag outside the bracket stays in the caption text (only the bracket segment is removed) |
| CaptionParser.ContributorTagOrder | lib/google-photos.ts:151-158 | the type is pranav exactly when `#pranav`/`@pranav` occurs case-insensitively, pooja exactly when only the pooja tags occur, together otherwise |
| CaptionParser.TagType | lib/google-photos.ts:151-158 | `pranav` exactly when `#pranav` or `@pranav` occurs in the lower-cased text; `pooja` exactly when a pooja tag occurs and no pranav tag does; `together` otherwise |
| CaptionParser.TypeIgnoresCase | lib/google-photos.ts:152-154 | the type does not depend on letter case |
| CaptionParser.ParisExample | lib/google-photos.ts:139-143 | `Our trip! [Paris] #pranav` gives place `Paris` and caption `Our trip!  #pranav` |
| JsBuiltins.Trim | lib/google-photos.ts:142 | no whitespace at either end; the slice of the input that starts after its leading whitespace, with only whitespace left after it |
| JsBuiltins.Lower | app/api/sync/route.ts:88 | the same length, each character lower-cased |
| JsBuiltins.ReplaceFirst | lib/google-photos.ts:142 | unchanged when the pattern does not occur or is replaced by itself; otherwise the length changes by that of the replacement minus that of the pattern |
| JsBuiltins.ReplaceFirstAt | lib/google-photos.ts:142 | with a string pattern only the first occurrence is replaced |
| JsBuiltins.DefaultSort | app/api/sync/route.ts:105 | a permutation of the input in `Array.prototype.sort` order |
| PhotoSource.AlbumItems | lib/google-photos.ts:27-58 | the listing fails with the status of the first non-ok page; otherwise it holds exactly the items of the pages up to the first that stops |
| PhotoSource.FetchAlbumPhotos | lib/google-photos.ts:23-59 | the loop's result is `AlbumItems`; it sends one request per page up to the stopping one, each with page size 100 and the previous page's token |
| PhotoSource.SinglePage | lib/google-photos.ts:30-56 | a first page without a non-empty token ends the listing with that page's items |
| PhotoSource.LaterRequestsCarryToken | lib/google-photos.ts:55-56 | every request after the first carries a non-empty page token |
| PhotoSource.LaterPagesIgnored | lib/google-photos.ts:30-56 | answers after the stopping page change nothing |
| PhotoSource.GetFreshUrls | lib/google-photos.ts:65-102 | the loop requests `Batches(ids)`, one batch per 50 ids, and builds the map of the entries of the ok answers, set in order |
| PhotoSource.RecordResults | lib/google-photos.ts:89-97 | the loop over one answer's results leaves the map equal to `SetAll(urlMap, EntriesOfResults(results))`: each result with a media item sets its id to `baseUrl=w800-h600`, in order, a later one overwriting an earlier |
| PhotoSource.BatchesCover | lib/google-photos.ts:72-73 | the batches, concatenated, are the id list |
| PhotoSource.BatchesShape | lib/google-photos.ts:72-73 | there are ceil(n/50) batches, each with 1 to 50 ids |
| PhotoSource.BatchesSpec | lib/google-photos.ts:72-73 | `Batches` gives ceil(n/50) batches of 1 to 50 ids each, which concatenate back to the ids in order |
| PhotoSource.MapOf | lib/google-photos.ts:90-97 | no entries give the empty map; the last entry's URL is the one kept for its id |
| PhotoSource.MapOfLastWins | lib/google-photos.ts:90-97 | an id is in the map exactly when some entry has it; its URL is that of its last entry |
| PhotoSource.ResolvedIds | lib/google-photos.ts:84-97 | an id gets a URL exactly when an ok batch answer returned a media item with that id; the URL is its base URL plus `=w800-h600` |
| Storage.LocationsOf | lib/storage.ts:26-28 | an empty slot reads as `[]` |
| Storage.PhotosOf | lib/storage.ts:40-42 | an empty slot reads as `[]` |
| Storage.CaptionsOf | lib/storage.ts:56-58 | an empty slot reads as `{}` |
| Storage.WithCaption | lib/storage.ts:47-51 | the photo's caption is set; other captions and the other slots are unchanged |
| Storage.SetCaptionIdempotent | lib/storage.ts:47-51 | setting the same caption twice equals setting it once |
| Storage.SetCaptionCommutes | lib/storage.ts:47-51 | edits of two different photos commute |
| Storage.FindLocation | lib/storage.ts:79 | none exactly when no location has the id; otherwise the first location with it |
| Storage.PhotosForLocation | lib/storage.ts:77-84 | `[]` for an unknown location; otherwise exactly the stored photos whose id the first location with that id lists, in stored-photo order and with their multiplicity (the stored list filtered by that test), never more than stored |
| Storage.KvStore.constructor | lib/storage.ts:1-14 | all four slots start empty |
| Storage.KvStore.StoreLocations | lib/storage.ts:19-21 | replaces the locations slot only |
| Storage.KvStore.StorePhotos | lib/storage.ts:33-35 | replaces the photos slot only |
| Storage.KvStore.StoreMeta | lib/storage.ts:63-65 | replaces the metadata slot only |
| Storage.KvStore.SetCaption | lib/storage.ts:47-51 | the new state is `WithCaption` of the old one |
| SyncRoute.Authorized | app/api/sync/route.ts:15-18 | only `Bearer <secret>` passes; with no secret, the literal `Bearer undefined` passes; a missing header never passes |
| SyncRoute.DropLeading | app/api/sync/route.ts:130-133 | a suffix of the text whose first character is not HTTP whitespace, every dropped character being HTTP whitespace |
| SyncRoute.DropTrailing | app/api/sync/route.ts:130-133 | a prefix of the text whose last character is not HTTP whitespace, every dropped character being HTTP whitespace |
| SyncRoute.HttpTrim | app/api/sync/route.ts:130-133 | the normalised header value neither starts nor ends with HTTP whitespace |
| SyncRoute.HeaderValue | app/api/sync/route.ts:130-133 | `new Request` throws (None) exactly when the value has a character above U+00FF, or NUL, CR or LF after trimming; otherwise `headers.get` returns the trimmed value |
| SyncRoute.DevelopmentHeaderPasses | app/api/sync/route.ts:127-136 | the development GET passes the check exactly when the header is accepted and the secret is non-empty and does not end in HTTP whitespace |
| SyncRoute.EmptySecretRejected | app/api/sync/route.ts:127-136 | an empty secret is sent as `Bearer` and is refused |
| SyncRoute.WideSecretThrows | app/api/sync/route.ts:130-133 | a secret with a character above U+00FF makes `new Request` throw |
| SyncRoute.UntrimmedSecretLocksPost | app/api/sync/route.ts:15-16 | with an empty secret or one ending in HTTP whitespace, no header value that does not end in HTTP whitespace (as every normalised value) passes |
| SyncRoute.TakenAt | app/api/sync/route.ts:44 | the creation time when it is non-empty, `now` otherwise |
| SyncRoute.CaptionFor | app/api/sync/route.ts:52 | a non-empty user caption overrides the parsed caption |
| SyncRoute.LabelOf | app/api/sync/route.ts:62 | the place when it is non-empty, `unlocated` otherwise; never empty |
| SyncRoute.EntryOf | app/api/sync/route.ts:39-62 | the stored photo of an item (id, caption, time, (0, 0), contributor) and its group label |
| SyncRoute.Entries | app/api/sync/route.ts:39-62 | one entry per media item, entry `i` being that of item `i` |
| SyncRoute.Photos | app/api/sync/route.ts:39-62 | the photo of every entry, in entry order |
| SyncRoute.PhotosShape | app/api/sync/route.ts:50-59 | the photo list has one record per item, in item order, at (0, 0), with the caption override rule |
| SyncRoute.GroupMember | app/api/sync/route.ts:63-66 | a group holds exactly the photos of the items with that label, in item order |
| SyncRoute.GroupBound | app/api/sync/route.ts:63-66 | a group takes at most one photo per item |
| SyncRoute.GroupFirst | app/api/sync/route.ts:63-76 | a group's first photo is that of the label's first item |
| SyncRoute.Slug | app/api/sync/route.ts:88 | as long as the name in UTF-16 code units; every character is `a-z`, `0-9` or `-` |
| SyncRoute.SlugAt | app/api/sync/route.ts:88 | each character of the name appears at its UTF-16 offset: lower-cased when in `[a-z0-9]`, else one dash per code unit |
| SyncRoute.SlugBmp | app/api/sync/route.ts:88 | for names without characters above U+FFFF, position `i` of the slug is the lower-cased character when in `[a-z0-9]`, else `-` |
| SyncRoute.FlagExample | app/api/sync/route.ts:88 | `Paris` with a space and a flag emoji in 2019 gets the id `paris------2019` (four dashes for the flag's two surrogate pairs) |
| SyncRoute.LocationId | app/api/sync/route.ts:88 | the slug of the name, `-`, then the year's decimal text |
| SyncRoute.SameIdAcrossCase | app/api/sync/route.ts:88 | names that differ only in case get the same id |
| SyncRoute.TokyoExample | app/api/sync/route.ts:88 | `Tokyo` and `tokyo` are two groups with one id |
| SyncRoute.Contributors | app/api/sync/route.ts:79 | the truthy contributor names of a group |
| SyncRoute.TwoContributorsTogether | app/api/sync/route.ts:79-85 | two different contributors make the place `together` |
| SyncRoute.ContributorType | app/api/sync/route.ts:79-85 | `together` unless there is exactly one distinct contributor; `pranav` only when some contributor's lower-cased name contains `pranav`; `pooja` only when some contributor's name contains `pooja` and not `pranav` |
| SyncRoute.NoContributorTogether | app/api/sync/route.ts:79-85 | no named contributor makes the place `together` |
| SyncRoute.SoleContributor | app/api/sync/route.ts:79-85 | one contributor gives pranav or pooja by a case-insensitive name match, together otherwise |
| SyncRoute.BuildLocation | app/api/sync/route.ts:75-95 | name, year and coordinates of the first photo, type from the group's contributors, id from name and year, photo ids in group order |
| SyncRoute.SyncedLocationsSpec | app/api/sync/route.ts:72-95 | one location per label other than `unlocated`, in first-seen order; the year and coordinates of its first photo, the type of its whole group, its id and exactly its photos' ids |
| SyncRoute.SyncedLocations | app/api/sync/route.ts:70-96 | the location names are the distinct labels other than `unlocated`, in first-seen order |
| SyncRoute.UnlocatedInNoLocation | app/api/sync/route.ts:73 | photos without a place are in no location |
| SyncRoute.FirstSeenOrder | app/api/sync/route.ts:63-72 | locations appear in the order their labels were first seen |
| SyncRoute.MetaYearsSpec | app/api/sync/route.ts:105 | the metadata years are the location years, each once, in `sort()` order |
| SyncRoute.MetaYears | app/api/sync/route.ts:105 | a permutation of the distinct location years, in `sort()` order |
| SyncRoute.MetaYearsAscending | app/api/sync/route.ts:105 | for four-digit years the order is numeric |
| SyncRoute.SyncedState | app/api/sync/route.ts:33-106 | captions are kept; photos, locations and metadata (count, time, album, and the years as `MetaYears` of the new locations) are replaced |
| SyncRoute.GroupItems | app/api/sync/route.ts:36-67 | the loop's photo list, first-seen label order and group map are those of the entries |
| SyncRoute.BuildLocations | app/api/sync/route.ts:70-96 | the loop's location list is `LocationsFor` of the label order |
| SyncRoute.LocationsFor | app/api/sync/route.ts:70-96 | at most one location per label |
| SyncRoute.SyncPost | app/api/sync/route.ts:13-124 | 401 and no write when unauthorized; 500 and no write without an album or when the listing fails; otherwise `SyncedState` with the photo count, location count and time in the answer |
| SyncRoute.SyncGet | app/api/sync/route.ts:127-136 | 405 and no write outside development; in development the header is normalised as `Headers` does: a crash (500) and no write when `new Request` throws, 401 and no write when the trimmed header fails the check, otherwise the outcomes of POST |
| PhotosRoute.DigitRun | app/api/photos/route.ts:28 | the longest prefix of digits of the radix |
| PhotosRoute.ParseIntDecimal | app/api/photos/route.ts:28 | `parseInt` reads back the decimal text of any integer when it ends the string or is followed by a character that is neither a letter nor a digit |
| PhotosRoute.ParseInt | app/api/photos/route.ts:28 | a number is read only when a digit, or a sign and a digit, follows the leading whitespace (blank text is NaN); a negative number needs a leading `-` |
| PhotosRoute.FilterLocations | app/api/photos/route.ts:27-33 | a location is kept exactly when it is stored and selected by the year and id filters; never more than were stored |
| PhotosRoute.FilterLocationsSelected | app/api/photos/route.ts:27-33 | the two filters keep exactly the locations with year at most the parsed year (when given) and the given id (when given), in stored order |
| PhotosRoute.UnreadableYearEmpty | app/api/photos/route.ts:27-30 | a year that `parseInt` cannot read gives no locations |
| PhotosRoute.RequestedIds | app/api/photos/route.ts:36 | exactly the photo ids of the filtered locations |
| PhotosRoute.RequestedIdsSelected | app/api/photos/route.ts:27-36 | an id is requested exactly when a selected location lists it |
| PhotosRoute.UrlOf | app/api/photos/route.ts:50 | the URL when present and non-empty |
| PhotosRoute.CaptionOf | app/api/photos/route.ts:51 | a non-empty user caption overrides the stored caption |
| PhotosRoute.Candidate | app/api/photos/route.ts:44-54 | no photo exactly when no stored photo has the id; otherwise a photo with that id and its URL |
| PhotosRoute.LoadablePhotos | app/api/photos/route.ts:43-55 | exactly the listed ids that are stored and have a URL, as their candidate photos |
| PhotosRoute.LoadablePhotosAppend | app/api/photos/route.ts:43-55 | the photos of a location keep the order of its photo ids |
| PhotosRoute.LoadablePhotoFields | app/api/photos/route.ts:45-53 | a kept photo has its id, its URL, and the time and caption of the first stored photo with that id |
| PhotosRoute.Assemble | app/api/photos/route.ts:57-64 | the location record keeps id, name, coordinates, type and year |
| PhotosRoute.ResponseSound | app/api/photos/route.ts:42-65 | every answered location is an assembled stored location with at least one photo |
| PhotosRoute.ResponseComplete | app/api/photos/route.ts:42-65 | every location with a loadable photo is answered |
| PhotosRoute.ResponseLocations | app/api/photos/route.ts:42-65 | at most one answered location per filtered location |
| PhotosRoute.ResponseAppend | app/api/photos/route.ts:42-65 | the answered locations keep the stored order |
| PhotosRoute.Response | app/api/photos/route.ts:42-71 | at most one location per filtered stored location; the stored years, `[]` when never synced; a last-synced text that is never empty |
| PhotosRoute.YearsOf | app/api/photos/route.ts:69 | the stored years, `[]` when never synced |
| PhotosRoute.LastSyncedOf | app/api/photos/route.ts:70 | the stored time, `never` when absent or empty |
| PhotosRoute.NeverSynced | app/api/photos/route.ts:67-71 | with no metadata the answer has no years and `never` |
| PhotosRoute.Get | app/api/photos/route.ts:14-87 | the answer is `Response` of the store, the query and the URLs resolved for the requested ids |
| CaptionsRoute.Field | app/api/captions/route.ts:20 | destructuring reads an object's own field, `undefined` otherwise |
| CaptionsRoute.PropertyKey | app/api/captions/route.ts:29 | a string id is its own key; a number becomes its decimal text |
| CaptionsRoute.PostOutcome | app/api/captions/route.ts:18-38 | 200 exactly when the body is an object with a truthy id and a string caption and the store works, and then the caption is set; 400 exactly on bad fields; the store is untouched otherwise |
| CaptionsRoute.Get | app/api/captions/route.ts:8-11 | all user captions |
| CaptionsRoute.Post | app/api/captions/route.ts:18-38 | new store and answer are `PostOutcome` |
| CaptionsRoute.SavedCaptionIsRead | app/api/captions/route.ts:22-31 | a saved caption is read back by GET; other captions are unchanged |
| CaptionsRoute.EmptyCaptionStored | app/api/captions/route.ts:22 | the empty caption is accepted and stored |
| CaptionsRoute.RejectedBodies | app/api/captions/route.ts:22-27 | a falsy id or a non-string caption gives 400 and no write |
| CaptionsRoute.UnusableBodies | app/api/captions/route.ts:20-35 | an unparsable or `null` body gives 500 and no write |
| CaptionsRoute.NumericIdSameKey | app/api/captions/route.ts:29 | a numeric id writes the same key as its decimal text |
| CaptionsRoute.PostIdempotent | app/api/captions/route.ts:18-38 | posting the same body twice equals posting it once |
| JourneyMap.VisibleLocations | components/JourneyMap.tsx:96 | exactly the loaded locations with year at most the slider year; none before data arrives |
| JourneyMap.VisibleGrows | components/JourneyMap.tsx:96 | moving the slider forward never hides a place |
| JourneyMap.AllVisible | components/JourneyMap.tsx:96 | when every year is reached, the filter keeps the whole list |
| JourneyMap.MinYear | components/JourneyMap.tsx:98 | the least year, or the current year when there are none |
| JourneyMap.MaxYear | components/JourneyMap.tsx:99 | the greatest year, or the current year when there are none |
| JourneyMap.SliderBoundsOrdered | components/JourneyMap.tsx:98-99 | slider minimum is at most its maximum |
| JourneyMap.TogetherCount | components/JourneyMap.tsx:102 | at most the number of places, and zero exactly when no place is `together` |
| JourneyMap.TogetherCountSingle | components/JourneyMap.tsx:102 | one place counts one exactly when it is `together`, else zero |
| JourneyMap.TotalPhotosAppend | components/JourneyMap.tsx:103 | the photo total adds up over parts of the list |
| JourneyMap.TogetherCountAppend | components/JourneyMap.tsx:102 | the shared-place count adds up over parts of the list |
| JourneyMap.TotalPhotosAtLeastPlaces | components/JourneyMap.tsx:102-103 | places with photos hold at least one photo each |
| JourneyMap.TotalPhotos | components/JourneyMap.tsx:103 | at least each place's photo count, and zero exactly when no place has a photo |
| JourneyMap.YearsOf | components/JourneyMap.tsx:97 | the answer's years, `[]` while there is no answer |
| JourneyMap.JsRem | components/JourneyMap.tsx:231-232 | `%` on a non-negative index is the remainder; a zero length or NaN gives NaN |
| JourneyMap.Opened | components/JourneyMap.tsx:105-112 | opening shows the place's photos from index 0 |
| JourneyMap.ClosedFrom | components/JourneyMap.tsx:230 | closing keeps photos, index and place |
| JourneyMap.StepsStayInRange | components/JourneyMap.tsx:231-232 | next and previous keep an in-range index in range, move it by one around the circle and change nothing else |
| JourneyMap.NextFrom | components/JourneyMap.tsx:231 | only the index changes; an in-range index `i` becomes `(i + 1) % n`; with no photos it becomes NaN |
| JourneyMap.PrevFrom | components/JourneyMap.tsx:232 | only the index changes; an in-range index `i` becomes `(i - 1 + n) % n`; with no photos it becomes NaN |
| JourneyMap.NextPrevInverse | components/JourneyMap.tsx:231-232 | previous undoes next and next undoes previous |
| JourneyMap.NextCycle | components/JourneyMap.tsx:231 | k steps forward move the index by k around the circle |
| JourneyMap.FullCircle | components/JourneyMap.tsx:231 | as many steps as photos return to the start |
| JourneyMap.EmptyStepIsNaN | components/JourneyMap.tsx:231-232 | with no photos a step makes the index NaN |
| JourneyMap.ArrowsCancel | components/JourneyMap.tsx:230-232 | right arrow then left arrow returns to the same photo |
| JourneyMap.OnKey | components/JourneyMap.tsx:225-232 | while closed nothing changes; Escape closes, ArrowRight steps forward and ArrowLeft steps back; any other key changes nothing |
| JourneyMap.ClosedIgnoresKeys | components/JourneyMap.tsx:225-232 | a closed lightbox ignores keys |
| JourneyMap.OpenShowsFirst | components/JourneyMap.tsx:105-112 | opening a place with photos renders the lightbox at an in-range index with the place name |
| JourneyMap.MapState.constructor | components/JourneyMap.tsx:62-73 | no data, this year, loading, no error, lightbox closed |
| JourneyMap.MapState.Loaded | components/JourneyMap.tsx:81-89 | stores the data, stops loading, moves the slider to the greatest year when there is one |
| JourneyMap.MapState.Failed | components/JourneyMap.tsx:86-89 | stores the error and stops loading; nothing else changes |
| JourneyMap.MapState.SetYear | components/JourneyMap.tsx:202 | sets the slider year only |
| JourneyMap.MapState.OpenLightbox | components/JourneyMap.tsx:105-112 | sets the lightbox to `Opened` and keeps the index in range |
| JourneyMap.MapState.CloseLightbox | components/JourneyMap.tsx:230 | closes the lightbox only |
| JourneyMap.MapState.NextPhoto | components/JourneyMap.tsx:231 | steps forward and keeps the index in range |
| JourneyMap.MapState.PrevPhoto | components/JourneyMap.tsx:232 | steps back and keeps the index in range |
| Lightbox.HandleKeyDown | components/Lightbox.tsx:25-38 | nothing while closed; Escape, ArrowRight and ArrowLeft (each iff) close, go forward and go back |
| Lightbox.CurrentPhoto | components/Lightbox.tsx:59 | the photo at an in-range index, none for NaN or out of range |
| Lightbox.Render | components/Lightbox.tsx:57 | nothing exactly when closed or without photos |
| Lightbox.NavigationWithSeveralPhotos | components/Lightbox.tsx:82-129 | arrows and counter appear exactly with more than one photo; the counter reads index + 1 of the count |
| Lightbox.CounterInRange | components/Lightbox.tsx:125-129 | for an in-range index the counter lies between 1 and the count |
| Lightbox.PictureOfCurrent | components/Lightbox.tsx:104-121 | the image appears exactly when the photo has a non-empty URL, with alt text caption or `Photo`; the caption line appears exactly when non-empty |
| Lightbox.NoCurrentPhoto | components/Lightbox.tsx:104-121 | a NaN or out-of-range index shows the placeholder and no caption |

## Left out

- The OAuth client and access token (`getAuthClient`): credentials and the token exchange are I/O.
- HTTP and JSON decoding: page and batch answers are given as transcripts of parsed answers, and the query string of a `batchGet` request is not built.
- PhotoSource.FetchAlbumPhotos: requires a transcript with a stopping page; the source loops for as long as the API keeps returning tokens.
- `reverseGeocode` and `getPhotoLocation`: the sync does not call them; one is a network call and the other always answers `null`.
- The clock: `new Date().toISOString()` is read three times in the sync; the model uses one `now` per request.
- `new Date(takenAt).getFullYear()` is the parameter `yearOf`; an unparsable date's `NaN` year is not modelled.
- `toLowerCase` maps ASCII letters only, and `trim` knows a fixed set of whitespace characters rather than all of Unicode.
- SyncRoute.Slug: follows the ASCII-only `toLowerCase` above, so a non-ASCII letter whose lower case is a letter of `[a-z]` or is longer (`İ` lower-cases to `i` and a combining dot) is slugged from the character itself; characters above U+FFFF are counted as two UTF-16 units, as the program does.
- Store write failures and thrown I/O errors during the sync and in the photos endpoint (their 500 answers) are not modelled. The captions endpoint has them as one flag.
- Concurrency: requests and the nightly sync interleave in the real store, and the store's writes are not transactional.
- Caption keys such as `__proto__` that JavaScript objects treat specially are ordinary keys here.
- JSON arrays and fractional numbers in the captions body are not modelled.
- PhotosRoute.ParseInt: integers are unbounded, whereas JavaScript loses precision beyond 2^53.
- CaptionsRoute.PropertyKey: a JSON number is an unbounded integer here, keyed by its decimal text; JavaScript parses it to a double, so from 1e21 the key takes exponent form (`1e+21`), integers beyond 2^53 are rounded before they become keys, and fractional ids are not modelled.
- The map page's rendering: Leaflet markers, bounds fitting, styling and the loading and error screens. Effects and callbacks become method calls on `MapState`.
- The lightbox's scroll lock and event listener registration (DOM effects).
- Console logging and the `Cache-Control` header of the photos answer.

## Notes

For `Our trip! [Paris] #pranav` the code keeps `#pranav` in the caption text.
Line 142 of lib/google-photos.ts removes only the bracket segment and trims the ends.
So the caption is `Our trip!  #pranav`, with two spaces (CaptionParser.ParisExample).

The development GET of app/api/sync/route.ts builds a new request whose
authorization header is `Bearer ${CRON_SECRET}`. The Fetch `Headers` class
strips HTTP whitespace from both ends of that value, and `new Request`
throws on a character above U+00FF or an inner NUL, CR or LF. So with an
empty secret, or one ending in whitespace, the GET answers 401
(SyncRoute.DevelopmentHeaderPasses, SyncRoute.EmptySecretRejected), and
no POST can pass either (SyncRoute.UntrimmedSecretLocksPost). A secret
the header cannot carry makes the handler throw (`Crashed`,
SyncRoute.WideSecretThrows). The header argument of `SyncPost` is the
value `headers.get` returns, which is already normalised.
