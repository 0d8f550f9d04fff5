/**
 * MimeTypes: the mapping between MIME types and file extensions. GetExtension
 * reads the extension off a MIME type; GetMimeType looks a file name's
 * extension up, first in the user-supplied ExtensionMimeTypes dictionary
 * (a parameter here, since the source keeps it in a static field) and then in
 * a fixed table whose fallback is `application/<ext>`.
 */
module MimeTypes {

  import opened Wrappers
  import opened Text

  const ProtoBuf := "application/x-protobuf"

  /** MimeTypes.GetExtension(mimeType). */
  function GetExtension(mimeType: Option<string>): (r: Result<string>)
    ensures r.Ok? ==> |r.value| > 0 && r.value[0] == '.'
    ensures r.Error? ==> r.failure in {NullReference, NotSupported}
    ensures r == Error(NullReference) <==> mimeType.None?
  {
    if mimeType == Some(ProtoBuf) then Ok(".pbuf")
    else if mimeType.None? then Error(NullReference)
    else
      var parts := Split(mimeType.value, '/');
      if |parts| == 1 then Ok("." + parts[0])
      else if |parts| == 2 then Ok("." + parts[1])
      else Error(NotSupported)
  }

  /** The last of the `.`-separated pieces of a file name: the whole name when it has no `.`. */
  function FileExtension(fileNameOrExt: string): string
  {
    var parts := Split(fileNameOrExt, '.');
    parts[|parts| - 1]
  }

  /** MimeTypes.GetMimeType(fileNameOrExt), reading ExtensionMimeTypes from `extensionMimeTypes`. */
  function GetMimeType(fileNameOrExt: Option<string>, extensionMimeTypes: map<string, string>): (r: Result<string>)
    ensures r.Error? <==> fileNameOrExt.None? || |fileNameOrExt.value| == 0
    ensures r.Error? ==> r.failure == ArgumentNull
  {
    if fileNameOrExt.None? || |fileNameOrExt.value| == 0 then Error(ArgumentNull)
    else
      var fileExt := FileExtension(fileNameOrExt.value);
      if fileExt in extensionMimeTypes then Ok(extensionMimeTypes[fileExt])
      else Ok(BuiltInMimeType(fileExt))
  }

  /**
   * The `switch` on the extension inside GetMimeType. Its cases are distinct
   * literals, so it is written here as a lookup: the extensions with a fixed
   * type, then the ones whose type is `<top-level type>/<ext>`, then the
   * default `application/<ext>`.
   */
  function BuiltInMimeType(fileExt: string): string
  {
    if fileExt in FixedTypes then FixedTypes[fileExt] else TopLevelType(fileExt) + "/" + fileExt
  }

  /** The cases whose result does not end in the extension. */
  const FixedTypes: map<string, string> := map[
    "jpg" := "image/jpeg", "tif" := "image/tiff", "svg" := "image/svg+xml",
    "htm" := "text/html", "html" := "text/html", "shtml" := "text/html",
    "js" := "text/javascript", "ts" := "text/x.typescript", "jsx" := "text/jsx",
    "txt" := "text/plain",
    "mp3" := "audio/mpeg3", "mid" := "audio/midi",
    "qt" := "video/quicktime", "mov" := "video/quicktime", "mpg" := "video/mpeg",
    "ogv" := "video/ogg",
    "xls" := "application/x-excel", "doc" := "application/msword",
    "ppt" := "application/powerpoint", "gz" := "application/x-compressed",
    "tgz" := "application/x-compressed", "eot" := "application/vnd.ms-fontobject",
    "ttf" := "application/octet-stream", "woff" := "application/font-woff",
    "woff2" := "application/font-woff2"
  ]

  /** The cases whose result is `<top-level type>/<ext>`, by top-level type. */
  const ImageSubtypes: set<string> := {"jpeg", "gif", "png", "tiff", "bmp", "webp"}
  const TextSubtypes: set<string> := {"csv", "css", "sgml"}
  const AudioSubtypes: set<string> := {"wav"}
  const VideoSubtypes: set<string> := {"avi", "mp4", "ogg", "webm"}
  const ApplicationSubtypes: set<string> := {"rtf"}

  /** Every extension the table names. */
  const KnownExtensions: set<string> :=
    FixedTypes.Keys + ImageSubtypes + TextSubtypes + AudioSubtypes + VideoSubtypes + ApplicationSubtypes

  /** The top-level type of a case of the second kind; "application" for the rest. */
  function TopLevelType(fileExt: string): (r: string)
    ensures r in {"image", "text", "audio", "video", "application"}
    ensures r == "application" <==> fileExt !in ImageSubtypes + TextSubtypes + AudioSubtypes + VideoSubtypes
  {
    if fileExt in ImageSubtypes then "image"
    else if fileExt in TextSubtypes then "text"
    else if fileExt in AudioSubtypes then "audio"
    else if fileExt in VideoSubtypes then "video"
    else "application"
  }

  // ---------------------------------------------------------------------------
  // GetExtension

  /** A null MIME type throws a NullReferenceException. */
  lemma GetExtensionNull()
    ensures GetExtension(None) == Error(NullReference)
  {
  }

  /**
   * Apart from the ProtoBuf type, a MIME type with at most one `/` gives `.`
   * and the text after that `/` (the whole text when there is none); one with
   * two or more throws a NotSupportedException.
   */
  lemma GetExtensionMeaning(mimeType: string)
    requires mimeType != ProtoBuf
    ensures var r := GetExtension(Some(mimeType));
      && (r.Ok? <==> CountFrom(mimeType, '/', 0) <= 1)
      && (r.Ok? ==> r.value == "." + mimeType[LastIndexOf(mimeType, '/') + 1..])
      && (r.Error? ==> r.failure == NotSupported)
  {
    SplitFromCount(mimeType, '/', 0);
    SplitLast(mimeType, '/');
  }

  /** A type and a subtype without `/` give `.` and the subtype. */
  lemma GetExtensionPair(category: string, subtype: string)
    requires '/' !in category && '/' !in subtype
    requires category + "/" + subtype != ProtoBuf
    ensures GetExtension(Some(category + "/" + subtype)) == Ok("." + subtype)
  {
    SplitTwo(category, subtype, '/');
  }

  // ---------------------------------------------------------------------------
  // GetMimeType

  /** A null or empty name throws an ArgumentNullException; any other name gives a type. */
  lemma GetMimeTypeRejects(fileNameOrExt: Option<string>, extensionMimeTypes: map<string, string>)
    ensures GetMimeType(fileNameOrExt, extensionMimeTypes).Error?
      <==> fileNameOrExt.None? || fileNameOrExt == Some("")
    ensures GetMimeType(fileNameOrExt, extensionMimeTypes).Error?
      ==> GetMimeType(fileNameOrExt, extensionMimeTypes).failure == ArgumentNull
  {
  }

  /** The extension is the text after the last `.`, the whole name when there is none, and holds no `.`. */
  lemma FileExtensionMeaning(fileNameOrExt: string)
    ensures FileExtension(fileNameOrExt) == fileNameOrExt[LastIndexOf(fileNameOrExt, '.') + 1..]
    ensures '.' !in FileExtension(fileNameOrExt)
  {
    SplitLast(fileNameOrExt, '.');
    AfterLastFree(fileNameOrExt, '.');
  }

  /** What follows the last `c` holds no `c`. */
  lemma AfterLastFree(s: string, c: char)
    ensures c !in s[LastIndexOf(s, c) + 1..]
  {
    LastIndexOfLast(s, c);
    FreeAfter(s, c, LastIndexOf(s, c));
  }

  /** With no `c` after `l`, the text after `l` holds none. */
  lemma FreeAfter(s: string, c: char, l: int)
    requires -1 <= l < |s|
    requires forall j :: l < j < |s| ==> s[j] != c
    ensures c !in s[l + 1..]
  {
    var t := s[l + 1..];
    forall i | 0 <= i < |t| ensures t[i] != c {
      assert t[i] == s[l + 1 + i];
    }
  }

  /**
   * An entry of ExtensionMimeTypes for the extension takes precedence over
   * the table; without one, the table decides.
   */
  lemma GetMimeTypeLookup(fileNameOrExt: string, extensionMimeTypes: map<string, string>)
    requires |fileNameOrExt| > 0
    ensures var ext := fileNameOrExt[LastIndexOf(fileNameOrExt, '.') + 1..];
      GetMimeType(Some(fileNameOrExt), extensionMimeTypes)
        == Ok(if ext in extensionMimeTypes then extensionMimeTypes[ext] else BuiltInMimeType(ext))
  {
    FileExtensionMeaning(fileNameOrExt);
  }

  /** Registering a type for a name's extension makes GetMimeType return it. */
  lemma GetMimeTypeOverride(fileNameOrExt: string, extensionMimeTypes: map<string, string>, mimeType: string)
    requires |fileNameOrExt| > 0
    ensures var ext := FileExtension(fileNameOrExt);
      GetMimeType(Some(fileNameOrExt), extensionMimeTypes[ext := mimeType]) == Ok(mimeType)
  {
  }

  /** Only the extension matters: a name and its non-empty extension give the same type. */
  lemma GetMimeTypeExtensionOnly(fileNameOrExt: string, extensionMimeTypes: map<string, string>)
    requires |FileExtension(fileNameOrExt)| > 0
    ensures GetMimeType(Some(fileNameOrExt), extensionMimeTypes)
      == GetMimeType(Some(FileExtension(fileNameOrExt)), extensionMimeTypes)
  {
    var ext := FileExtension(fileNameOrExt);
    FileExtensionMeaning(fileNameOrExt);
    SplitOne(ext, '.');
  }

  /** An extension the table does not name, and no entry for it, gives `application/<ext>`. */
  lemma GetMimeTypeUnknown(fileNameOrExt: string, extensionMimeTypes: map<string, string>)
    requires |fileNameOrExt| > 0
    requires FileExtension(fileNameOrExt) !in KnownExtensions
    requires FileExtension(fileNameOrExt) !in extensionMimeTypes
    ensures GetMimeType(Some(fileNameOrExt), extensionMimeTypes)
      == Ok("application/" + FileExtension(fileNameOrExt))
  {
    var ext := FileExtension(fileNameOrExt);
    assert ext !in FixedTypes.Keys;
    assert ext !in ImageSubtypes + TextSubtypes + AudioSubtypes + VideoSubtypes;
    assert "application" + "/" == "application/";
  }

  // ---------------------------------------------------------------------------
  // The two directions together

  /** The first letters of "image", "text", "audio" and "video" tell them from "application". */
  lemma NotProtoBuf(category: string, subtype: string)
    requires category in {"image", "text", "audio", "video"}
    ensures category + "/" + subtype != ProtoBuf
  {
    assert (category + "/" + subtype)[1] == category[1];
    assert ProtoBuf[1] == 'p';
  }

  /** "application/" followed by anything but "x-protobuf" is not the ProtoBuf type. */
  lemma NotProtoBufApplication(subtype: string)
    requires subtype != "x-protobuf"
    ensures "application" + "/" + subtype != ProtoBuf
  {
    var m := "application" + "/" + subtype;
    assert m[12..] == subtype;
    assert ProtoBuf[12..] == "x-protobuf";
  }

  /**
   * For an extension without `/` and without a fixed type (every unknown
   * extension, and the known ones whose type is `<type>/<ext>`), the extension
   * read back from its MIME type is `.<ext>`. The one exception is
   * "x-protobuf", whose type GetExtension maps to ".pbuf".
   */
  lemma BuiltInRoundTrip(ext: string)
    requires '/' !in ext && ext !in FixedTypes && ext != "x-protobuf"
    ensures GetExtension(Some(BuiltInMimeType(ext))) == Ok("." + ext)
  {
    var category := TopLevelType(ext);
    if category == "application" {
      NotProtoBufApplication(ext);
    } else {
      NotProtoBuf(category, ext);
    }
    GetExtensionPair(category, ext);
  }

  /** The example name cut at its last `.`. */
  lemma PhotoJpgPieces()
    ensures LastIndexOf("photo.jpg", '.') == 5
    ensures "photo.jpg"[6..] == "jpg"
  {
    LastIndexOfUnique("photo.jpg", '.', 5);
  }

  /** "photo.jpg" is an image/jpeg, whose extension reads back as ".jpeg", not ".jpg". */
  lemma JpgExample()
    ensures GetMimeType(Some("photo.jpg"), map[]) == Ok("image/jpeg")
    ensures GetExtension(Some("image/jpeg")) == Ok(".jpeg")
  {
    PhotoJpgPieces();
    GetMimeTypeLookup("photo.jpg", map[]);
    assert BuiltInMimeType("jpg") == "image/jpeg";
    JpegPieces();
    NotProtoBuf("image", "jpeg");
    GetExtensionPair("image", "jpeg");
  }

  /** The example type cut at its `/`. */
  lemma JpegPieces()
    ensures "image/jpeg" == "image" + "/" + "jpeg"
    ensures ".jpeg" == "." + "jpeg"
    ensures '/' !in "image" && '/' !in "jpeg"
  {
  }
}
