/** The multimedia dispatcher (server/services/geminiAnalyzer.js): where a
    stored file is looked up, which MIME type is sent to Gemini for it, and
    which fixed placeholder replaces every failure. The file system's
    existence check and the Gemini request are parameters. */
module MultimediaAnalyzer {
  import opened Common

  const FileNotFoundText := "[Archivo multimedia no encontrado]"
  const UnsupportedText := "[Tipo de multimedia no soportado]"
  const GeneralErrorText := "[Error analizando multimedia]"
  const ImageFailedText := "[Imagen - no se pudo analizar]"
  const VideoFailedText := "[Video - no se pudo analizar]"
  const AudioFailedText := "[Audio - no se pudo transcribir]"

  /** The two directories a media reference resolves into. */
  datatype MediaRoot = ClientPublic | ServerUploads

  /** A resolved file: the directory and the name joined to it. */
  datatype MediaFile = MediaFile(root: MediaRoot, name: string)

  /** Which of the three Gemini helpers is called. */
  datatype Modality = ImageAnalysis | VideoAnalysis | AudioTranscription

  datatype GeminiRequest = GeminiRequest(modality: Modality, file: MediaFile, mimeType: string)

  /** A name starting with `/` is a static asset under `client/public`;
      anything else was uploaded to `server/uploads`. */
  function Locate(mediaFilename: string): (f: MediaFile)
    ensures f.name == mediaFilename
    ensures f.root == ClientPublic <==> |mediaFilename| > 0 && mediaFilename[0] == '/'
  {
    if StartsWith(mediaFilename, "/") then MediaFile(ClientPublic, mediaFilename)
    else MediaFile(ServerUploads, mediaFilename)
  }

  // ---------------------------------------------------------------------------
  // path.extname

  function TrimTrailingSlashes(p: string): (r: string)
    ensures |r| <= |p| && r == p[..|r|]
    ensures r == [] || r[|r| - 1] != '/'
  {
    if p != [] && p[|p| - 1] == '/' then TrimTrailingSlashes(p[..|p| - 1]) else p
  }

  /** The part after the last `/`. */
  function LastSegment(p: string): (r: string)
    ensures '/' !in r
    ensures '/' !in p ==> r == p
    ensures |r| <= |p| && r == p[|p| - |r|..]
  {
    if '/' !in p then p
    else if p[|p| - 1] == '/' then []
    else
      var t := LastSegment(p[..|p| - 1]);
      t + [p[|p| - 1]]
  }

  /** Index of the last `.` in `s`. */
  function LastDot(s: string): (k: nat)
    requires '.' in s
    ensures k < |s| && s[k] == '.' && '.' !in s[k + 1..]
  {
    if s[|s| - 1] == '.' then |s| - 1 else LastDot(s[..|s| - 1])
  }

  /** Node's POSIX `path.extname`: from the last `.` of the last path segment
      (trailing slashes ignored) to its end; empty when that segment has no
      dot, when its only leading dot is its first character, or when it is `..`. */
  function ExtName(p: string): (r: string)
    ensures r == [] || (r[0] == '.' && '.' !in r[1..] && '/' !in r)
  {
    var base := LastSegment(TrimTrailingSlashes(p));
    if '.' !in base then ""
    else
      var d := LastDot(base);
      if d == 0 || base == ".." then "" else base[d..]
  }

  /** A name `stem.ext` with no `/` and a dot-free `ext` has extension `.ext`. */
  lemma ExtNameOfStemAndExt(stem: string, ext: string)
    requires stem != [] && '/' !in stem && '/' !in ext && '.' !in ext
    requires !(stem == "." && ext == [])
    ensures ExtName(stem + "." + ext) == "." + ext
  {
    var p := stem + "." + ext;
    StemDotExt(stem, ext);
    NoTrailingSlash(p);
    assert LastSegment(TrimTrailingSlashes(p)) == p;
    LastDotAt(p, |stem|);
    assert p != ".." by {
      if ext == [] { assert stem != "."; assert |stem| != 1 || stem[0] != '.'; }
    }
  }

  /** The shape of `stem.ext`: no `/` anywhere, the dot right after the stem. */
  lemma StemDotExt(stem: string, ext: string)
    requires '/' !in stem && '/' !in ext && '.' !in ext
    ensures var p := stem + "." + ext;
      && '/' !in p && p[|p| - 1] != '/'
      && p[|stem|] == '.' && '.' !in p[|stem| + 1..] && p[|stem|..] == "." + ext
  {
    var p := stem + "." + ext;
    forall i | 0 <= i < |p| ensures p[i] != '/' {
      if i < |stem| { assert p[i] == stem[i]; }
      else if i > |stem| { assert p[i] == ext[i - |stem| - 1]; }
    }
    assert p[|stem| + 1..] == ext;
  }

  lemma NoTrailingSlash(p: string)
    requires p != [] && p[|p| - 1] != '/'
    ensures TrimTrailingSlashes(p) == p
  {
  }

  lemma LastDotAt(s: string, k: nat)
    requires k < |s| && s[k] == '.' && '.' !in s[k + 1..]
    ensures LastDot(s) == k
  {
    if s[|s| - 1] != '.' {
      assert s[..|s| - 1][k + 1..] == s[k + 1..|s| - 1];
      LastDotAt(s[..|s| - 1], k);
    }
  }

  /** A dot file such as `.env` has no extension. */
  lemma ExtNameOfDotFile(rest: string)
    requires '/' !in rest && '.' !in rest
    ensures ExtName("." + rest) == ""
  {
    var p := "." + rest;
    if rest != [] {
      assert p[|p| - 1] == rest[|rest| - 1];
    }
    NoTrailingSlash(p);
    assert '/' !in p;
    assert p[1..] == rest;
    LastDotAt(p, 0);
  }

  // ---------------------------------------------------------------------------
  // extension to MIME type, per kind

  function ImageMime(ext: string): string
  {
    if ext == ".png" then "image/png"
    else if ext == ".jpg" || ext == ".jpeg" then "image/jpeg"
    else if ext == ".webp" then "image/webp"
    else if ext == ".gif" then "image/gif"
    else "image/jpeg"
  }

  function VideoMime(ext: string): string
  {
    if ext == ".mp4" then "video/mp4"
    else if ext == ".webm" then "video/webm"
    else if ext == ".mov" then "video/mov"
    else if ext == ".avi" then "video/avi"
    else "video/mp4"
  }

  function AudioMime(ext: string): string
  {
    if ext == ".mp3" then "audio/mpeg"
    else if ext == ".wav" then "audio/wav"
    else if ext == ".ogg" then "audio/ogg"
    else if ext == ".aac" then "audio/aac"
    else if ext == ".flac" then "audio/flac"
    else "audio/mpeg"
  }

  function FamilyPrefix(m: Modality): string
  {
    match m
    case ImageAnalysis => "image/"
    case VideoAnalysis => "video/"
    case AudioTranscription => "audio/"
  }

  function MimeFor(m: Modality, ext: string): string
  {
    match m
    case ImageAnalysis => ImageMime(ext)
    case VideoAnalysis => VideoMime(ext)
    case AudioTranscription => AudioMime(ext)
  }

  /** The MIME type always belongs to the requested kind, an unlisted
      extension gets the kind's fallback, and a listed one gets `type/ext`
      except for the aliases `.jpg`, `.mp3`. */
  lemma MimeTables(m: Modality, ext: string)
    ensures StartsWith(MimeFor(m, ext), FamilyPrefix(m))
    ensures m == ImageAnalysis && ext !in [".png", ".jpg", ".jpeg", ".webp", ".gif"] ==> MimeFor(m, ext) == "image/jpeg"
    ensures m == VideoAnalysis && ext !in [".mp4", ".webm", ".mov", ".avi"] ==> MimeFor(m, ext) == "video/mp4"
    ensures m == AudioTranscription && ext !in [".mp3", ".wav", ".ogg", ".aac", ".flac"] ==> MimeFor(m, ext) == "audio/mpeg"
    ensures m == ImageAnalysis && ext in [".png", ".jpeg", ".webp", ".gif"] ==> MimeFor(m, ext) == "image/" + ext[1..]
    ensures m == VideoAnalysis && ext in [".mp4", ".webm", ".mov", ".avi"] ==> MimeFor(m, ext) == "video/" + ext[1..]
    ensures m == AudioTranscription && ext in [".wav", ".ogg", ".aac", ".flac"] ==> MimeFor(m, ext) == "audio/" + ext[1..]
    ensures ext == ".jpg" && m == ImageAnalysis ==> MimeFor(m, ext) == "image/jpeg"
    ensures ext == ".mp3" && m == AudioTranscription ==> MimeFor(m, ext) == "audio/mpeg"
  {
    match m
    case ImageAnalysis => ImageMimeTable(ext);
    case VideoAnalysis => VideoMimeTable(ext);
    case AudioTranscription => AudioMimeTable(ext);
  }

  lemma ImageMimeTable(ext: string)
    ensures StartsWith(ImageMime(ext), "image/")
    ensures ext !in [".png", ".jpg", ".jpeg", ".webp", ".gif"] ==> ImageMime(ext) == "image/jpeg"
    ensures ext in [".png", ".jpeg", ".webp", ".gif"] ==> ImageMime(ext) == "image/" + ext[1..]
    ensures ext == ".jpg" ==> ImageMime(ext) == "image/jpeg"
  {
  }

  lemma VideoMimeTable(ext: string)
    ensures StartsWith(VideoMime(ext), "video/")
    ensures ext !in [".mp4", ".webm", ".mov", ".avi"] ==> VideoMime(ext) == "video/mp4"
    ensures ext in [".mp4", ".webm", ".mov", ".avi"] ==> VideoMime(ext) == "video/" + ext[1..]
  {
  }

  lemma AudioMimeTable(ext: string)
    ensures StartsWith(AudioMime(ext), "audio/")
    ensures ext !in [".mp3", ".wav", ".ogg", ".aac", ".flac"] ==> AudioMime(ext) == "audio/mpeg"
    ensures ext in [".wav", ".ogg", ".aac", ".flac"] ==> AudioMime(ext) == "audio/" + ext[1..]
    ensures ext == ".mp3" ==> AudioMime(ext) == "audio/mpeg"
  {
  }

  /** The MIME type belongs to the requested kind, proved one table at a time. */
  lemma MimeFamily(m: Modality, ext: string)
    ensures StartsWith(MimeFor(m, ext), FamilyPrefix(m))
  {
    match m
    case ImageAnalysis => ImageMimeTable(ext);
    case VideoAnalysis => VideoMimeTable(ext);
    case AudioTranscription => AudioMimeTable(ext);
  }

  function ModalityOf(mediaType: string): Option<Modality>
  {
    if mediaType == "image" then Some(ImageAnalysis)
    else if mediaType == "video" then Some(VideoAnalysis)
    else if mediaType == "audio" then Some(AudioTranscription)
    else None
  }

  function FailedText(m: Modality): string
  {
    match m
    case ImageAnalysis => ImageFailedText
    case VideoAnalysis => VideoFailedText
    case AudioTranscription => AudioFailedText
  }

  /** The request made for an existing file, or `None` for an unsupported kind. */
  function RequestFor(mediaFilename: string, mediaType: string): (r: Option<GeminiRequest>)
    ensures r.Some? <==> mediaType == "image" || mediaType == "video" || mediaType == "audio"
    ensures r.Some? ==> && r.value.file == Locate(mediaFilename)
                        && StartsWith(r.value.mimeType, FamilyPrefix(r.value.modality))
                        && r.value.mimeType == MimeFor(r.value.modality, ExtName(ToLowerAscii(mediaFilename)))
                        && FamilyPrefix(r.value.modality) == mediaType + "/"
  {
    match ModalityOf(mediaType)
    case None => None
    case Some(m) =>
      MimeFamily(m, ExtName(ToLowerAscii(mediaFilename)));
      Some(GeminiRequest(m, Locate(mediaFilename), MimeFor(m, ExtName(ToLowerAscii(mediaFilename)))))
  }

  /** `analyzeMultimedia`. `mediaFilename` is `None` for a `null` reference
      (whose `startsWith` throws, caught by the outer handler); `fileExists` is
      `fs.existsSync`; `gemini` returns `None` when the helper's request
      throws. */
  function AnalyzeMultimedia(mediaFilename: Option<string>, mediaType: string,
                             fileExists: MediaFile -> bool,
                             gemini: GeminiRequest -> Option<string>): (r: string)
    ensures mediaFilename.None? ==> r == GeneralErrorText
    ensures mediaFilename.Some? && !fileExists(Locate(mediaFilename.value)) ==> r == FileNotFoundText
    ensures mediaFilename.Some? && fileExists(Locate(mediaFilename.value)) && ModalityOf(mediaType).None? ==> r == UnsupportedText
    ensures mediaFilename.Some? && fileExists(Locate(mediaFilename.value)) &&
            RequestFor(mediaFilename.value, mediaType).Some? &&
            gemini(RequestFor(mediaFilename.value, mediaType).value).Some? ==>
      r == gemini(RequestFor(mediaFilename.value, mediaType).value).value
  {
    match mediaFilename
    case None => GeneralErrorText
    case Some(name) =>
      if !fileExists(Locate(name)) then FileNotFoundText
      else match RequestFor(name, mediaType)
        case None => UnsupportedText
        case Some(req) =>
          match gemini(req)
          case None => FailedText(req.modality)
          case Some(text) => text
  }

  /** The fixed strings an analysis can fall back to. */
  predicate IsPlaceholder(s: string)
  {
    s in [FileNotFoundText, UnsupportedText, GeneralErrorText, ImageFailedText, VideoFailedText, AudioFailedText]
  }

  /** The analyzer never fails: its answer is Gemini's text exactly when an
      existing file of a supported kind got an answer to the request of its
      own kind, and a placeholder otherwise. */
  lemma AnalyzeMultimediaOutcome(mediaFilename: Option<string>, mediaType: string,
                                 fileExists: MediaFile -> bool, gemini: GeminiRequest -> Option<string>)
    ensures var r := AnalyzeMultimedia(mediaFilename, mediaType, fileExists, gemini);
      var answered := mediaFilename.Some? && fileExists(Locate(mediaFilename.value)) &&
                      RequestFor(mediaFilename.value, mediaType).Some? &&
                      gemini(RequestFor(mediaFilename.value, mediaType).value).Some?;
      && (answered ==> r == gemini(RequestFor(mediaFilename.value, mediaType).value).value)
      && (!answered ==> IsPlaceholder(r))
  {
  }

  /** A failed Gemini call for an existing file gives the kind's own placeholder. */
  lemma GeminiFailurePlaceholder(name: string, mediaType: string,
                                 fileExists: MediaFile -> bool, gemini: GeminiRequest -> Option<string>)
    requires fileExists(Locate(name))
    requires RequestFor(name, mediaType).Some? && gemini(RequestFor(name, mediaType).value).None?
    ensures AnalyzeMultimedia(Some(name), mediaType, fileExists, gemini) ==
      if mediaType == "image" then ImageFailedText
      else if mediaType == "video" then VideoFailedText
      else AudioFailedText
  {
  }

  /** The existence check comes before the kind: a missing file of an
      unsupported kind still reports "not found". */
  lemma MissingBeforeUnsupported(name: string, fileExists: MediaFile -> bool, gemini: GeminiRequest -> Option<string>)
    requires !fileExists(Locate(name))
    ensures AnalyzeMultimedia(Some(name), "none", fileExists, gemini) == FileNotFoundText
  {
  }
}
