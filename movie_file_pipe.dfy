/**
 * `MovieFilePipe`: checks an uploaded movie file (present, not larger than
 * the configured number of megabytes, of the configured MIME type) and
 * gives it a fresh name that keeps its extension.
 *
 * The fresh name's `uuid` and time `now` (epoch milliseconds) are
 * parameters, and so is `join`, Node's `path.join`. Moving the file on disk
 * (`rename`) is not part of this model.
 */
module MovieFilePipe {
  import opened Wrappers
  import Text
  import Http

  const MissingFileMessage := "Movie 필드는 필수 입니다."

  /** The fields multer fills in for an uploaded file. */
  datatype UploadedFile = UploadedFile(
    fieldname: string, originalname: string, encoding: string, mimetype: string,
    size: int, destination: string, filename: string, path: string)

  /** The pipe's options. */
  datatype Options = Options(maxSize: int, mimeType: string)

  function TooLargeMessage(maxSize: int): string
  {
    Text.IntToString(maxSize) + " MB 이하의 사이즈만 업로드 가능합니다."
  }

  function WrongTypeMessage(mimeType: string): string
  {
    mimeType + " 만 업로드 가능합니다."
  }

  /** The checks, in order: presence, then size, then MIME type. */
  function Check(value: Option<UploadedFile>, options: Options): (r: Http.Outcome<UploadedFile>)
    ensures value.None? ==> r == Err(Http.BadRequest(MissingFileMessage))
    ensures value.Some? && value.value.size > 1000 * 1000 * options.maxSize ==> r == Err(Http.BadRequest(TooLargeMessage(options.maxSize)))
    ensures value.Some? && value.value.size <= 1000 * 1000 * options.maxSize && value.value.mimetype != options.mimeType ==>
      r == Err(Http.BadRequest(WrongTypeMessage(options.mimeType)))
    ensures r.Ok? <==> value.Some? && value.value.size <= 1000 * 1000 * options.maxSize && value.value.mimetype == options.mimeType
    ensures r.Ok? ==> r.value == value.value
  {
    if value.None? then Err(Http.BadRequest(MissingFileMessage))
    else if value.value.size > 1000 * 1000 * options.maxSize then Err(Http.BadRequest(TooLargeMessage(options.maxSize)))
    else if value.value.mimetype != options.mimeType then Err(Http.BadRequest(WrongTypeMessage(options.mimeType)))
    else Ok(value.value)
  }

  /**
   * The last piece of the name split at `.`, or `txt` when there is no `.`:
   * the text after the last `.`.
   */
  function Extension(originalname: string): (ext: string)
    ensures '.' !in originalname ==> ext == "txt"
    ensures '.' in originalname ==> '.' !in ext && Text.EndsWith(originalname, "." + ext)
  {
    var pieces := Text.Split(originalname, '.');
    Text.SplitCountsSeparator(originalname, '.');
    if |pieces| > 1 then
      Text.SplitLast(originalname, '.');
      pieces[|pieces| - 1]
    else "txt"
  }

  /** The extension of `base.ext` is `ext`, whatever dots `base` holds. */
  lemma ExtensionOf(base: string, ext: string)
    requires '.' !in ext
    ensures Extension(base + "." + ext) == ext
  {
    assert base + "." + ext == base + ['.'] + ext;
    Text.SplitLastPiece(base, '.', ext);
  }

  /** `${uuid}_${now}.${extension}` */
  function FreshName(uuid: string, now: int, ext: string): string
  {
    uuid + "_" + Text.IntToString(now) + "." + ext
  }

  /**
   * `transform`: a file that passes the checks comes back with only
   * `filename` and `path` replaced; the new name keeps the extension.
   */
  function Transform(value: Option<UploadedFile>, options: Options, uuid: string, now: int, join: (string, string) -> string): (r: Http.Outcome<UploadedFile>)
    ensures r.Err? <==> Check(value, options).Err?
    ensures r.Err? ==> r == Check(value, options)
    ensures r.Ok? ==>
      var v := value.value;
      && r.value == v.(filename := r.value.filename, path := join(v.destination, r.value.filename))
      && Text.EndsWith(r.value.filename, "." + Extension(v.originalname))
      && r.value.filename == FreshName(uuid, now, Extension(v.originalname))
  {
    match Check(value, options)
    case Err(e) => Err(e)
    case Ok(v) =>
      var filename := FreshName(uuid, now, Extension(v.originalname));
      assert filename == (uuid + "_" + Text.IntToString(now)) + ("." + Extension(v.originalname));
      Ok(v.(filename := filename, path := join(v.destination, filename)))
  }

  /** A file exactly at the size limit is accepted. */
  lemma SizeAtLimitAccepted(v: UploadedFile, options: Options)
    requires v.size == 1000 * 1000 * options.maxSize && v.mimetype == options.mimeType
    ensures Check(Some(v), options) == Ok(v)
  {
  }
}
