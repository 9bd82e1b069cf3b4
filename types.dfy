/** The records of lib/types.ts (and `JourneyMeta` of lib/storage.ts) as
    datatypes. JavaScript numbers that are only copied (coordinates) are
    `real`; years and counts are integers. An optional property is an
    `Option`. */
module Types {
  import opened Wrappers

  /** Who a location belongs to: both of the couple, or one of them. */
  datatype LocationType = Together | Pranav | Pooja

  /** A photo as the client receives it, with a freshly resolved URL. */
  datatype Photo = Photo(id: string, url: Option<string>, caption: string, takenAt: string)

  /** A location as the client receives it. */
  datatype Location = Location(
    id: string,
    name: string,
    coords: (real, real),
    ltype: LocationType,
    year: int,
    photos: seq<Photo>)

  datatype CameraInfo = CameraInfo(cameraMake: Option<string>, cameraModel: Option<string>)

  datatype MediaMetadata = MediaMetadata(
    creationTime: string,
    width: string,
    height: string,
    photo: Option<CameraInfo>)

  datatype ContributorInfo = ContributorInfo(profilePictureBaseUrl: string, displayName: string)

  /** A media item of the photo API. `description` is not declared in
      lib/types.ts but is read by the sync route; `mediaMetadata` is read
      through `?.`, so it may be missing. */
  datatype GoogleMediaItem = GoogleMediaItem(
    id: string,
    baseUrl: string,
    mimeType: string,
    mediaMetadata: Option<MediaMetadata>,
    contributorInfo: Option<ContributorInfo>,
    description: Option<string>)

  /** A photo as stored: no URL, since URLs expire. */
  datatype StoredPhoto = StoredPhoto(
    id: string,
    caption: string,
    takenAt: string,
    lat: real,
    lng: real,
    contributor: Option<string>)

  /** A location as stored: the ids of its photos only. */
  datatype StoredLocation = StoredLocation(
    id: string,
    name: string,
    lat: real,
    lng: real,
    ltype: LocationType,
    year: int,
    photoIds: seq<string>)

  /** The body of a successful `GET /api/photos`. */
  datatype PhotosApiResponse = PhotosApiResponse(locations: seq<Location>, years: seq<int>, lastSynced: string)

  /** Sync metadata, rebuilt by every sync. */
  datatype JourneyMeta = JourneyMeta(lastSynced: string, albumId: string, totalPhotos: nat, years: seq<int>)
}
