/** `dnd.server.endpoints.UploadStaffAvatarEndpoint`
    (`POST /api/staff/:staffId/avatar`, body `{"avatar": "<base64>"}`): checks
    the staff member and the image, names its type by its first bytes,
    stores it in the object store as `avatars/<staffId>.<ext>` and records
    the returned URL in `staff_info.avatar_url`. The object store is outside
    the model: the call the endpoint makes is an output and its result an
    input. */
module StaffAvatar {
  import opened Wrappers
  import opened Bytes
  import opened Database
  import opened Json
  import opened Responses
  import Text
  import Encoding
  import Paths

  /** 50 KB. */
  const MaxSize: int := 50 * 1024

  datatype ImageType = ImageType(contentType: string, extension: string)

  const Png: ImageType := ImageType("image/png", "png")
  const Jpeg: ImageType := ImageType("image/jpeg", "jpg")
  const Gif: ImageType := ImageType("image/gif", "gif")

  /** The image type by magic bytes, looked at only when there are at least
      four: 89 50 4E 47 is PNG, FF D8 is JPEG, 47 49 46 is GIF, and anything
      else is taken for JPEG. */
  function DetectType(data: Bytes): (t: ImageType)
    ensures t == Png <==> |data| >= 4 && data[..4] == [0x89, 0x50, 0x4E, 0x47]
    ensures t == Gif <==> |data| >= 4 && data[..3] == [0x47, 0x49, 0x46]
    ensures t == Png || t == Jpeg || t == Gif
    ensures |data| < 4 ==> t == Jpeg
  {
    if |data| >= 4 then
      if data[0] == 0x89 && data[1] == 0x50 && data[2] == 0x4E && data[3] == 0x47 then Png
      else if data[0] == 0xFF && data[1] == 0xD8 then Jpeg
      else if data[0] == 0x47 && data[1] == 0x49 && data[2] == 0x46 then Gif
      else Jpeg
    else Jpeg
  }

  /** `String.format("avatars/%s.%s", staffId, extension)`. */
  function ObjectName(staffId: string, t: ImageType): string {
    "avatars/" + staffId + "." + t.extension
  }

  /** The `avatar` field: absent (or the empty string), not base64, or the
      decoded bytes. */
  datatype Avatar = Missing | NotBase64 | Data(bytes: Bytes)

  /** Reading `avatar` from the body; a value `getAsString` refuses (null, an
      object) throws. */
  function ReadAvatar(body: Option<Body>): (r: Throws<Avatar>)
    ensures body.None? || "avatar" !in body.value ==> r == Success(Missing)
    ensures r.Success? && r.value.Data? ==>
              && body.Some? && "avatar" in body.value
              && var text := AsString(body.value["avatar"]);
              && text.Success? && text.value != "" && Encoding.Decode(text.value) == Some(r.value.bytes)
  {
    if body.None? || "avatar" !in body.value then Success(Missing)
    else
      var text :- AsString(body.value["avatar"]);
      if text == "" then Success(Missing)
      else match Encoding.Decode(text)
        case None => Success(NotBase64)
        case Some(bytes) => Success(Data(bytes))
  }

  /** The call `minioClient.uploadFile(objectName, data, contentType)`. */
  datatype UploadCall = UploadCall(objectName: string, data: Bytes, contentType: string)

  /** What the object store answers: the URL of the stored object, or the
      message of the exception it throws. */
  datatype Upload = Uploaded(url: string) | UploadFailed(message: string)

  function UploadedData(url: string, size: int): Value {
    VObj(map["success" := VBool(true), "message" := VStr("Avatar uploaded successfully"),
             "url" := VStr(url), "size" := VInt(size)])
  }

  /** The staff id of the path: its second-to-last segment, when it has at
      least four. */
  function StaffIdOf(path: string): Option<string> {
    var parts := Paths.Segments(path);
    if |parts| < 4 then None else Some(parts[|parts| - 2])
  }

  /** What follows the staff checks, for the staff member `staffId` and the
      `avatar` field as read: the response, the `avatar_url` column
      afterwards, and the upload call made, if any. */
  function Store(avatars: map<string, Option<string>>, staffId: string, avatar: Throws<Avatar>,
                 upload: Upload, updateLost: bool)
    : (r: (Throws<Response>, map<string, Option<string>>, Option<UploadCall>))
    ensures avatar.Failure? ==> r == (Failure(avatar.error), avatars, None)
    ensures avatar == Success(NotBase64) ==> r == (Success(BadRequest("Invalid base64 avatar data")), avatars, None)
    ensures avatar == Success(Missing) || avatar == Success(Data([])) ==>
              r == (Success(BadRequest("Avatar data is required")), avatars, None)
    ensures avatar.Success? && avatar.value.Data? && |avatar.value.bytes| > MaxSize ==>
              r == (Success(BadRequest("Avatar size exceeds 50KB limit")), avatars, None)
    ensures r.2.Some? <==> avatar.Success? && avatar.value.Data? && 1 <= |avatar.value.bytes| <= MaxSize
    ensures r.2.Some? ==>
              var data := avatar.value.bytes;
              r.2.value == UploadCall(ObjectName(staffId, DetectType(data)), data, DetectType(data).contentType)
    ensures r.2.Some? && upload.UploadFailed? ==>
              r.0 == Success(BadRequest("Failed to upload avatar to storage: " + upload.message)) && r.1 == avatars
    ensures r.0.Success? && r.0.value.statusCode == 200 <==> r.2.Some? && upload.Uploaded?
    ensures r.0.Success? && r.0.value.statusCode == 200 ==>
              && r.0.value == Responses.Success(UploadedData(upload.url, |avatar.value.bytes|))
              && r.1 == if updateLost then avatars else avatars[staffId := Some(upload.url)]
    ensures !(r.0.Success? && r.0.value.statusCode == 200) ==> r.1 == avatars
  {
    match avatar
    case Failure(e) => (Failure(e), avatars, None)
    case Success(NotBase64) => (Success(BadRequest("Invalid base64 avatar data")), avatars, None)
    case Success(Missing) => (Success(BadRequest("Avatar data is required")), avatars, None)
    case Success(Data(data)) =>
      if |data| == 0 then (Success(BadRequest("Avatar data is required")), avatars, None)
      else if |data| > MaxSize then (Success(BadRequest("Avatar size exceeds 50KB limit")), avatars, None)
      else
        var t := DetectType(data);
        var call := UploadCall(ObjectName(staffId, t), data, t.contentType);
        match upload
        case UploadFailed(message) =>
          (Success(BadRequest("Failed to upload avatar to storage: " + message)), avatars, Some(call))
        case Uploaded(url) =>
          (Success(Responses.Success(UploadedData(url, |data|))),
           if updateLost then avatars else avatars[staffId := Some(url)], Some(call))
  }

  /** `handle(request)` on the `avatar_url` column `avatars` (keyed by staff
      id; a key is a staff member), with the object store answering `upload`
      and the final UPDATE lost when `updateLost`. The path is checked
      first, then the staff member, and only then the body. */
  function Outcome(avatars: map<string, Option<string>>, request: Request, upload: Upload, updateLost: bool)
    : (r: (Throws<Response>, map<string, Option<string>>, Option<UploadCall>))
    ensures StaffIdOf(request.path).None? ==> r == (Success(BadRequest("staffId is required")), avatars, None)
    ensures StaffIdOf(request.path).Some? && Text.Trim(StaffIdOf(request.path).value) == "" ==>
              r == (Success(BadRequest("staffId cannot be empty")), avatars, None)
    ensures StaffIdOf(request.path).Some? && Text.Trim(StaffIdOf(request.path).value) != "" &&
            StaffIdOf(request.path).value !in avatars ==>
              r == (Success(NotFound("Staff not found")), avatars, None)
    ensures StaffIdOf(request.path).Some? && Text.Trim(StaffIdOf(request.path).value) != "" &&
            StaffIdOf(request.path).value in avatars ==>
              r == Store(avatars, StaffIdOf(request.path).value, ReadAvatar(request.body), upload, updateLost)
  {
    var parts := Paths.Segments(request.path);
    if |parts| < 4 then (Success(BadRequest("staffId is required")), avatars, None)
    else
      var staffId := parts[|parts| - 2];
      if Text.Trim(staffId) == "" then (Success(BadRequest("staffId cannot be empty")), avatars, None)
      else if staffId !in avatars then (Success(NotFound("Staff not found")), avatars, None)
      else Store(avatars, staffId, ReadAvatar(request.body), upload, updateLost)
  }

  /** `handle(request)` on the database `db`. */
  method Handle(db: Db, request: Request, upload: Upload, updateLost: bool)
    returns (r: Throws<Response>, call: Option<UploadCall>)
    modifies db`staffAvatars
    ensures (r, db.staffAvatars, call) == Outcome(old(db.staffAvatars), request, upload, updateLost)
  {
    call := None;
    var parts := Paths.Segments(request.path);
    if |parts| < 4 {
      return Success(BadRequest("staffId is required")), None;
    }
    var staffId := parts[|parts| - 2];
    assert StaffIdOf(request.path) == Some(staffId);
    if Text.Trim(staffId) == "" {
      return Success(BadRequest("staffId cannot be empty")), None;
    }
    if staffId !in db.staffAvatars {
      return Success(NotFound("Staff not found")), None;
    }
    r, call := StoreAvatar(db, staffId, ReadAvatar(request.body), upload, updateLost);
  }

  /** The tail of `handle(request)` after the staff checks. */
  method StoreAvatar(db: Db, staffId: string, avatar: Throws<Avatar>, upload: Upload, updateLost: bool)
    returns (r: Throws<Response>, call: Option<UploadCall>)
    modifies db`staffAvatars
    ensures (r, db.staffAvatars, call) == Store(old(db.staffAvatars), staffId, avatar, upload, updateLost)
  {
    call := None;
    if avatar.Failure? {
      return Failure(avatar.error), None;
    }
    if avatar.value.NotBase64? {
      return Success(BadRequest("Invalid base64 avatar data")), None;
    }
    if avatar.value.Missing? || |avatar.value.bytes| == 0 {
      return Success(BadRequest("Avatar data is required")), None;
    }
    var data := avatar.value.bytes;
    if |data| > MaxSize {
      return Success(BadRequest("Avatar size exceeds 50KB limit")), None;
    }
    var contentType := "image/jpeg";
    var extension := "jpg";
    if |data| >= 4 {
      if data[0] == 0x89 && data[1] == 0x50 && data[2] == 0x4E && data[3] == 0x47 {
        contentType, extension := "image/png", "png";
      } else if data[0] == 0xFF && data[1] == 0xD8 {
        contentType, extension := "image/jpeg", "jpg";
      } else if data[0] == 0x47 && data[1] == 0x49 && data[2] == 0x46 {
        contentType, extension := "image/gif", "gif";
      }
    }
    assert ImageType(contentType, extension) == DetectType(data);
    call := Some(UploadCall("avatars/" + staffId + "." + extension, data, contentType));
    if upload.UploadFailed? {
      return Success(BadRequest("Failed to upload avatar to storage: " + upload.message)), call;
    }
    if !updateLost {
      db.staffAvatars := db.staffAvatars[staffId := Some(upload.url)];
    }
    r := Success(Responses.Success(UploadedData(upload.url, |data|)));
  }

  // ---------------------------------------------------------------------------
  // Laws

  /** The request path `/api/staff/<staffId>/avatar` with a body carrying
      the base64 of `data`. */
  function AvatarRequest(base: Request, staffId: string, data: Bytes): Request {
    base.(path := Paths.Join(["api", "staff", staffId, "avatar"]),
          body := Some(map["avatar" := JStr(Encoding.Encode(data))]))
  }

  lemma StaffIdReadsBack(path: string, staffId: string)
    requires Paths.IsSegment(staffId) && path == Paths.Join(["api", "staff", staffId, "avatar"])
    ensures StaffIdOf(path) == Some(staffId)
  {
    Paths.SegmentsOfJoin(["api", "staff", staffId, "avatar"]);
  }

  /** The request built by `AvatarRequest` reads back its staff id and its
      bytes. */
  lemma AvatarRequestReadsBack(base: Request, staffId: string, data: Bytes)
    requires Paths.IsSegment(staffId) && |data| > 0
    ensures StaffIdOf(AvatarRequest(base, staffId, data).path) == Some(staffId)
    ensures ReadAvatar(AvatarRequest(base, staffId, data).body) == Success(Data(data))
  {
    StaffIdReadsBack(AvatarRequest(base, staffId, data).path, staffId);
    Encoding.DecodeEncode(data);
    assert |Encoding.Encode(data)| > 0;
  }

  /** An image of 1 to 51200 bytes sent as base64 for a known staff member is
      handed to the store byte for byte; when the store answers a URL, the
      response reports the size and the staff member's `avatar_url` becomes
      that URL. One byte more is refused before any upload. */
  lemma UploadRoundTrip(avatars: map<string, Option<string>>, base: Request, staffId: string, data: Bytes,
                        upload: Upload)
    requires Paths.IsSegment(staffId) && Text.Trim(staffId) != "" && staffId in avatars
    requires |data| > 0
    ensures var r := Outcome(avatars, AvatarRequest(base, staffId, data), upload, false);
            && (|data| <= MaxSize && upload.Uploaded? ==>
                  && r.0 == Success(Responses.Success(UploadedData(upload.url, |data|)))
                  && r.1 == avatars[staffId := Some(upload.url)]
                  && r.2.Some? && r.2.value.data == data)
            && (|data| > MaxSize ==> r == (Success(BadRequest("Avatar size exceeds 50KB limit")), avatars, None))
  {
    AvatarRequestReadsBack(base, staffId, data);
  }

  /** An unknown staff member is refused before the body is read, even a body
      whose `avatar` would throw. */
  lemma UnknownStaffFirst(avatars: map<string, Option<string>>, request: Request, upload: Upload, updateLost: bool)
    requires StaffIdOf(request.path).Some? && Text.Trim(StaffIdOf(request.path).value) != ""
    requires StaffIdOf(request.path).value !in avatars
    requires request.body.Some? && request.body.value == map["avatar" := JNull]
    ensures ReadAvatar(request.body).Failure?
    ensures Outcome(avatars, request, upload, updateLost) == (Success(NotFound("Staff not found")), avatars, None)
  {
  }

  /** Three bytes are too few for detection: a GIF or JPEG prefix alone is
      stored as JPEG. */
  lemma ShortPrefixIsJpeg()
    ensures DetectType([0x47, 0x49, 0x46]) == Jpeg
    ensures DetectType([0xFF, 0xD8, 0x00]) == Jpeg
    ensures DetectType([0x47, 0x49, 0x46, 0x38]) == Gif
  {
  }
}
