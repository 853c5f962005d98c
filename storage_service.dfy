// Client-side checks of the storage service: the image-file validator run
// before an upload, and the storage path that a delete request derives from a
// public URL. The upload and delete requests themselves are network I/O.
module StorageService {
  import opened Wrappers
  import opened Strings

  /** 10 MB, the largest accepted upload, in bytes. */
  const MaxImageSize: int := 10 * 1024 * 1024

  /** The MIME types an avatar upload may have, in the order they are checked. */
  const AllowedImageTypes: seq<string> := ["image/jpeg", "image/jpg", "image/png", "image/webp"]

  const InvalidTypeError: string := "Please select a valid image file (JPEG, PNG, or WebP)"
  const TooLargeError: string := "Image size must be less than 10MB"

  /** `{ isValid, error? }`; `error` is absent on a valid file. */
  datatype ValidationResult = ValidationResult(isValid: bool, error: Option<string>)

  /**
   * validateImageFile: the type guard runs first, then the size guard; a
   * file that passes both is valid and carries no message.
   */
  function ValidateImageFile(fileType: string, size: int): (r: ValidationResult)
    ensures r.isValid <==> r.error.None?
    ensures r.isValid <==> fileType in AllowedImageTypes && size <= MaxImageSize
    ensures fileType !in AllowedImageTypes ==> r.error == Some(InvalidTypeError)
    ensures fileType in AllowedImageTypes && size > MaxImageSize ==> r.error == Some(TooLargeError)
  {
    if fileType !in AllowedImageTypes then
      ValidationResult(false, Some(InvalidTypeError))
    else if size > MaxImageSize then
      ValidationResult(false, Some(TooLargeError))
    else
      ValidationResult(true, None)
  }

  /** The limit is inclusive: exactly 10 MB passes, one byte more does not. */
  lemma SizeLimitInclusive(fileType: string)
    requires fileType in AllowedImageTypes
    ensures ValidateImageFile(fileType, 10485760).isValid
    ensures ValidateImageFile(fileType, 10485761).error == Some(TooLargeError)
  {
  }

  /**
   * The path that deleteImage sends: the last two '/'-separated segments of
   * the URL joined by '/'. A URL without any '/' has a single segment, and
   * JavaScript's out-of-range read renders as the text "undefined".
   */
  function DeletePath(url: string): (path: string)
  {
    var parts := Split(url, '/');
    var fileName := parts[|parts| - 1];
    var folder := if |parts| >= 2 then parts[|parts| - 2] else "undefined";
    folder + "/" + fileName
  }

  /** For a public URL `.../folder/file`, the delete path is `folder/file`. */
  lemma DeletePathOfPublicUrl(prefix: string, folder: string, file: string)
    requires '/' !in folder && '/' !in file
    ensures DeletePath(prefix + "/" + folder + "/" + file) == folder + "/" + file
  {
    var url := prefix + "/" + folder + "/" + file;
    assert url == prefix + ['/'] + (folder + ['/'] + file);
    SplitAtSeparator(prefix, folder + ['/'] + file, '/');
    SplitAtSeparator(folder, file, '/');
    SplitNoSeparator(folder, '/');
    SplitNoSeparator(file, '/');
    var parts := Split(url, '/');
    assert parts == Split(prefix, '/') + [folder] + [file];
  }

  /** A URL without '/' yields the path "undefined/<url>". */
  lemma DeletePathWithoutSlash(url: string)
    requires '/' !in url
    ensures DeletePath(url) == "undefined/" + url
  {
    SplitNoSeparator(url, '/');
  }
}
