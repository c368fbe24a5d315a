/** The upload middleware: the stored file name, the image-type filter and
    the size and count limits. */
module Upload {
  import opened Common
  import opened Text

  /** The `files` limit. */
  const MaxFiles: nat := 5
  /** 5 MB, the size limit when MAX_FILE_SIZE gives no usable number. */
  const DefaultMaxFileSize: int := 5 * 1024 * 1024
  const ImagePrefix: string := "image/"

  /** The index of the last occurrence of `c` in `s`. */
  function LastIndex(s: string, c: char): (r: Option<nat>)
    ensures r.Some? ==> r.value < |s| && s[r.value] == c
    ensures r.Some? ==> forall j :: r.value < j < |s| ==> s[j] != c
    ensures r.None? ==> c !in s
  {
    if s == [] then None
    else if s[|s| - 1] == c then Some(|s| - 1)
    else
      var r := LastIndex(s[..|s| - 1], c);
      assert s == s[..|s| - 1] + [s[|s| - 1]];
      r
  }

  /** The path without its trailing '/' characters. */
  function DropTrailingSlashes(s: string): (r: string)
    ensures |r| <= |s| && r == s[..|r|]
    ensures r == [] || r[|r| - 1] != '/'
    ensures forall j :: |r| <= j < |s| ==> s[j] == '/'
  {
    if s != [] && s[|s| - 1] == '/' then DropTrailingSlashes(s[..|s| - 1]) else s
  }

  /** The last segment of a path, the part `path.extname` looks at. */
  function BaseName(path: string): (r: string)
    ensures '/' !in r
  {
    var t := DropTrailingSlashes(path);
    match LastIndex(t, '/')
    case Some(k) => t[k + 1..]
    case None => t
  }

  /** `path.extname` on one segment: from its last '.' to its end, or ''
      when it has no '.', when that '.' is its first character, or when the
      segment is '..'. */
  function ExtnameOf(base: string): (r: string)
    ensures r == [] || (r[0] == '.' && '.' !in r[1..])
    ensures |r| <= |base| && r == base[|base| - |r|..]
  {
    match LastIndex(base, '.')
    case None => ""
    case Some(d) =>
      if d == 0 || base == ".." then ""
      else
        var r := base[d..];
        assert forall j :: 0 <= j < |r| - 1 ==> r[1..][j] == base[d + 1 + j];
        r
  }

  /** `path.extname(originalname)`. */
  function Extname(path: string): string
  {
    ExtnameOf(BaseName(path))
  }

  /** The extension of `stem.ext` is `.ext` when the stem is not empty and
      neither part holds a '/' or the extension a '.'; the one exception is
      the name '..'. */
  lemma ExtnameOfStemAndExtension(stem: string, ext: string)
    requires stem != "" && '/' !in stem && '/' !in ext && '.' !in ext
    requires stem != "." || ext != ""
    ensures Extname(stem + "." + ext) == "." + ext
  {
    var name := stem + "." + ext;
    assert DropTrailingSlashes(name) == name by {
      if ext == "" { assert name[|name| - 1] == '.'; } else { assert name[|name| - 1] == ext[|ext| - 1]; }
    }
    assert '/' !in name by {
      forall j | 0 <= j < |name| ensures name[j] != '/' {
        if j < |stem| { assert name[j] == stem[j]; }
        else if j > |stem| { assert name[j] == ext[j - |stem| - 1]; }
      }
    }
    assert LastIndex(name, '.') == Some(|stem|) by {
      LastDotAt(name, |stem|, ext);
    }
    assert name[|stem|..] == "." + ext;
  }

  lemma LastDotAt(name: string, d: nat, ext: string)
    requires d < |name| && name[d] == '.' && name[d + 1..] == ext && '.' !in ext
    ensures LastIndex(name, '.') == Some(d)
  {
    assert forall j :: d < j < |name| ==> name[j] == ext[j - d - 1];
  }

  /** A segment that starts with its only '.' has no extension. */
  lemma DotFileHasNoExtension(rest: string)
    requires '.' !in rest && '/' !in rest && rest != "" && rest[|rest| - 1] != '/'
    ensures Extname("." + rest) == ""
  {
    var name := "." + rest;
    assert name[|name| - 1] == rest[|rest| - 1];
    assert '/' !in name by {
      forall j | 0 <= j < |name| ensures name[j] != '/' {
        if j > 0 { assert name[j] == rest[j - 1]; }
      }
    }
    LastDotAt(name, 0, rest);
  }

  /** The unanchored `/jpg|jpeg|png/` test. */
  predicate AllowedType(s: string)
  {
    Contains(s, "jpg") || Contains(s, "jpeg") || Contains(s, "png")
  }

  /** `fileFilter`: the lower-cased extension and the MIME type with its
      first 'image/' removed must both contain 'jpg', 'jpeg' or 'png'; a
      refusal reaches the error handler, which answers 500. */
  function FileFilter(originalName: string, mimetype: string): (r: Response<()>)
    ensures r == Ok(200, ()) || r == Err(500, InvalidFileType)
  {
    if AllowedType(ToLower(Extname(originalName))) && AllowedType(ReplaceFirst(mimetype, ImagePrefix, ""))
    then Ok(200, ())
    else Err(500, InvalidFileType)
  }

  /** `filename`: a fresh id followed by the lower-cased extension. */
  function StoredFilename(id: string, originalName: string): (r: string)
    ensures |r| == |id| + |Extname(originalName)|
    ensures r[..|id|] == id && IsLower(r[|id|..])
  {
    var ext := ToLower(Extname(originalName));
    ToLowerIdempotent(Extname(originalName));
    assert (id + ext)[|id|..] == ext;
    id + ext
  }

  /** The file a request keeps is stored under its fresh id and an
      extension that passed the type test. */
  lemma AcceptedFileStoredAsImage(id: string, originalName: string, mimetype: string)
    requires FileFilter(originalName, mimetype).Ok?
    ensures var r := StoredFilename(id, originalName);
            StartsWith(r, id) && AllowedType(r[|id|..])
  {
    var ext := ToLower(Extname(originalName));
    assert (id + ext)[|id|..] == ext;
    assert (id + ext)[..|id|] == id;
  }

  /** One uploaded file as the middleware sees it. */
  datatype IncomingFile = IncomingFile(originalName: string, mimetype: string, size: nat)

  /** `parseInt(process.env.MAX_FILE_SIZE) || 5 MB`: `None` stands for a
      missing or unparsable variable (NaN); 0 falls back to the default as
      well. */
  function MaxFileSize(parsed: Option<int>): (r: int)
    ensures r != 0
    ensures parsed.None? || parsed == Some(0) ==> r == DefaultMaxFileSize
  {
    if parsed.Some? && parsed.value != 0 then parsed.value else DefaultMaxFileSize
  }

  /** Why one file is refused, if it is: the filter runs when the file
      starts, the size limit while it streams. */
  function FileRefusal(f: IncomingFile, maxSize: int): (r: Option<Reason>)
    ensures r.None? <==> FileFilter(f.originalName, f.mimetype).Ok? && f.size <= maxSize
  {
    if FileFilter(f.originalName, f.mimetype).Err? then Some(InvalidFileType)
    else if f.size > maxSize then Some(FileTooLarge)
    else None
  }

  /** The first refusal in file order: a file beyond the allowed count, or
      the first file that `verdict` refuses on its own. */
  function FirstRefusal<T>(files: seq<T>, verdict: T -> Option<Reason>, slots: nat): (r: Option<Reason>)
    ensures r.None? <==> |files| <= slots && forall i :: 0 <= i < |files| ==> verdict(files[i]).None?
  {
    if files == [] then None
    else if slots == 0 then Some(TooManyFiles)
    else if verdict(files[0]).Some? then verdict(files[0])
    else
      var r := FirstRefusal(files[1..], verdict, slots - 1);
      assert forall i :: 1 <= i < |files| ==> files[i] == files[1..][i - 1];
      r
  }

  /** The files of one request, with a field allowing `maxCount` files
      (`single` allows one, `array(…, 5)` five). Either every file is kept,
      each under its fresh id and lower-cased extension, or the request
      fails with 500 and the reason for the first file refused. */
  function AcceptFiles(files: seq<IncomingFile>, ids: seq<string>, maxCount: nat,
                       sizeSetting: Option<int>): (r: Response<seq<string>>)
    requires |ids| == |files|
    ensures r.Ok? <==> |files| <= maxCount && |files| <= MaxFiles
                       && forall i :: 0 <= i < |files| ==> FileRefusal(files[i], MaxFileSize(sizeSetting)).None?
    ensures r.Ok? ==> r.status == 200 && |r.value| == |files|
    ensures r.Ok? ==> forall i :: 0 <= i < |files| ==> r.value[i] == StoredFilename(ids[i], files[i].originalName)
    ensures r.Err? ==> r.status == 500
  {
    var slots := if maxCount <= MaxFiles then maxCount else MaxFiles;
    var maxSize := MaxFileSize(sizeSetting);
    match FirstRefusal(files, (f: IncomingFile) => FileRefusal(f, maxSize), slots)
    case Some(why) => Err(500, why)
    case None => Ok(200, seq(|files|, i requires 0 <= i < |files| => StoredFilename(ids[i], files[i].originalName)))
  }

  /** The type test is an unanchored match: an extension or MIME type is
      accepted as soon as 'jpg', 'jpeg' or 'png' occurs anywhere in it, in
      any letter case for the extension, whatever surrounds it. */
  lemma AcceptedWhereverTypeOccurs(stem: string, ext: string, mimetype: string, t: string, j: nat,
                                   t2: string, j2: nat)
    requires stem != "" && '/' !in stem && '/' !in ext && '.' !in ext && ext != ""
    requires t in {"jpg", "jpeg", "png"} && OccursAt(ToLower(ext), t, j)
    requires t2 in {"jpg", "jpeg", "png"} && OccursAt(ReplaceFirst(mimetype, ImagePrefix, ""), t2, j2)
    ensures FileFilter(stem + "." + ext, mimetype) == Ok(200, ())
  {
    LoweredExtension(stem, ext);
    OccursAfterDot(ToLower(ext), t, j);
    ContainsIff("." + ToLower(ext), t);
    ContainsIff(ReplaceFirst(mimetype, ImagePrefix, ""), t2);
  }

  lemma LoweredExtension(stem: string, ext: string)
    requires stem != "" && '/' !in stem && '/' !in ext && '.' !in ext && ext != ""
    ensures ToLower(Extname(stem + "." + ext)) == "." + ToLower(ext)
  {
    ExtnameOfStemAndExtension(stem, ext);
    assert ToLower("." + ext) == "." + ToLower(ext);
  }

  lemma OccursAfterDot(s: string, t: string, j: nat)
    requires OccursAt(s, t, j)
    ensures OccursAt("." + s, t, j + 1)
  {
    assert ("." + s)[j + 1..j + 1 + |t|] == s[j..j + |t|];
  }

  /** A name whose last segment starts with its only '.' (such as '.png')
      has no extension and is refused, whatever its MIME type. */
  lemma DotFileRefused(rest: string, mimetype: string)
    requires '.' !in rest && '/' !in rest && rest != "" && rest[|rest| - 1] != '/'
    ensures FileFilter("." + rest, mimetype) == Err(500, InvalidFileType)
  {
    DotFileHasNoExtension(rest);
    assert ToLower("") == "";
  }
}
