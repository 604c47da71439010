/**
 * The image upload middleware (middlewares/upload.js): the file filter, the storage
 * parameters derived from a file's name, the size and count limits, and the mapping from
 * upload errors to replies. File names follow `path.extname` of Node's POSIX path module.
 */
module Upload {
  import opened Wrappers
  import opened Text

  const MaxFileSize := 100 * 1024 * 1024
  const MaxFiles := 4
  /** `upload.array('images', 4)`: the only form field that may carry files. */
  const ImagesField := "images"
  const AllowedMimeTypes: seq<string> :=
    ["image/jpeg", "image/png", "image/jpg", "image/gif", "image/webp", "image/svg+xml"]
  const AllowedExtensions: seq<string> := [".jpg", ".jpeg", ".png", ".gif", ".webp", ".svg"]
  /** The stored formats the accepted extensions give: each extension without its dot. */
  const AllowedFormats: seq<string> := ["jpg", "jpeg", "png", "gif", "webp", "svg"]
  const DefaultFormat := "jpg"
  const Folder := "products"
  const ResourceType := "image"

  /** What the middleware sees of one uploaded part: the form field, the client's name, the type and the size in bytes. */
  datatype FileInfo = FileInfo(field: string, originalName: string, mimeType: string, size: nat)

  // ---------------------------------------------------------------------------------
  // path.extname

  /** The path without its trailing slashes. */
  function StripTrailingSlashes(s: string): string {
    if s != [] && s[|s| - 1] == '/' then StripTrailingSlashes(s[..|s| - 1]) else s
  }

  /**
   * Stripping keeps a prefix that is empty or does not end in '/', and what it cuts off
   * is nothing but slashes.
   */
  lemma {:induction false} StripTrailingSlashesSpec(s: string)
    ensures var r := StripTrailingSlashes(s);
            && |r| <= |s| && r == s[..|r|]
            && (r == [] || r[|r| - 1] != '/')
            && (forall k :: |r| <= k < |s| ==> s[k] == '/')
  {
    if s != [] && s[|s| - 1] == '/' {
      var t := s[..|s| - 1];
      StripTrailingSlashesSpec(t);
      var r := StripTrailingSlashes(t);
      assert t[..|r|] == s[..|r|];
      assert forall k :: |r| <= k < |t| ==> s[k] == t[k];
    }
  }

  /** The index of the last occurrence of `c` in `s`. */
  function LastIndexOf(s: string, c: char): (r: Option<nat>)
    ensures r.Some? ==> r.value < |s|
  {
    if s == [] then None
    else if s[|s| - 1] == c then Some(|s| - 1)
    else LastIndexOf(s[..|s| - 1], c)
  }

  /** `LastIndexOf` finds `c` exactly when `s` holds it, and no `c` comes after the index it finds. */
  lemma {:induction false} LastIndexOfSpec(s: string, c: char)
    ensures var r := LastIndexOf(s, c);
            && (r.None? <==> c !in s)
            && (r.Some? ==> s[r.value] == c && c !in s[r.value + 1..])
  {
    if s != [] && s[|s| - 1] != c {
      var t := s[..|s| - 1];
      LastIndexOfSpec(t, c);
      assert s == t + [s[|s| - 1]];
      var r := LastIndexOf(t, c);
      if r.Some? {
        assert s[r.value + 1..] == t[r.value + 1..] + [s[|s| - 1]];
      }
    }
  }

  /** The part of `s` after its last '/'; all of `s` when it has none. */
  function LastSegment(s: string): string {
    var i := LastIndexOf(s, '/');
    if i.None? then s else s[i.value + 1..]
  }

  /** The last component of a POSIX path, trailing slashes ignored. */
  function Basename(path: string): string {
    LastSegment(StripTrailingSlashes(path))
  }

  /**
   * The base name is the '/'-free suffix of the path without its trailing slashes that
   * starts right after its last '/' (all of it when it has none), and a path without any
   * '/' is its own base name.
   */
  lemma BasenameSpec(path: string)
    ensures var t := StripTrailingSlashes(path);
            var b := Basename(path);
            && |t| <= |path| && t == path[..|t|]
            && |b| <= |t| && b == t[|t| - |b|..]
            && '/' !in b
            && ('/' !in t ==> b == t)
            && (|b| < |t| ==> t[|t| - |b| - 1] == '/')
            && ('/' !in path ==> b == path)
  {
    var t := StripTrailingSlashes(path);
    StripTrailingSlashesSpec(path);
    LastIndexOfSpec(t, '/');
  }

  /**
   * `path.extname`: the base name from its last '.' on; empty when it has no '.', when its
   * only '.' is its first character (a dot file), and for the name "..".
   */
  function ExtName(path: string): string {
    Extension(Basename(path))
  }

  /** The extension of a base name `b`. */
  function Extension(b: string): string {
    var j := LastIndexOf(b, '.');
    if j.None? || j.value == 0 || (|b| == 2 && b[0] == b[1] == '.') then [] else b[j.value..]
  }

  /**
   * A base name has an extension exactly when it holds a '.' after its first character
   * and is not "..". An extension starts with the only '.' it holds, and it is a proper
   * suffix of the base name.
   */
  lemma ExtensionSpec(b: string)
    ensures var r := Extension(b);
            && (r != [] <==> b != ".." && exists k :: 0 < k < |b| && b[k] == '.')
            && (r != [] ==> && r[0] == '.' && '.' !in r[1..]
                            && |r| < |b| && r == b[|b| - |r|..])
  {
    var j := LastIndexOf(b, '.');
    LastIndexOfSpec(b, '.');
    if Extension(b) != [] {
      assert b[j.value..][1..] == b[j.value + 1..];
      assert 0 < j.value < |b| && b[j.value] == '.';
    }
    if exists k :: 0 < k < |b| && b[k] == '.' {
      var k :| 0 < k < |b| && b[k] == '.';
      assert b[k] in b;
      assert b[k] !in b[j.value + 1..] ==> k <= j.value;
      if |b| == 2 && b[0] == b[1] == '.' {
        assert b == "..";
      }
    }
  }

  // ---------------------------------------------------------------------------------
  // fileFilter

  datatype Decision = Accept | Reject(message: string)

  /** The message of the error the filter hands to multer. */
  const ImagesOnlyMessage := "only image files are supported (jpg, jpeg, png, gif, webp, svg)"

  /** The extension the filter compares: lowercased. */
  function FilterExtension(f: FileInfo): string {
    ToLower(ExtName(f.originalName))
  }

  function FileFilter(f: FileInfo): Decision {
    if f.mimeType in AllowedMimeTypes && FilterExtension(f) in AllowedExtensions
    then Accept
    else Reject(ImagesOnlyMessage)
  }

  /**
   * An accepted file has an allowed type and a base name that ends, up to ASCII case,
   * in one of the allowed extensions, after at least one other character: a dot file such
   * as ".png" has no extension and is refused.
   */
  lemma AcceptedFileIsImage(f: FileInfo)
    ensures FileFilter(f).Accept? ==>
              var b := Basename(f.originalName);
              var e := FilterExtension(f);
              && e in AllowedExtensions
              && |e| < |b|
              && ToLower(b[|b| - |e|..]) == e
    ensures FileFilter(f).Reject? ==> FileFilter(f).message == ImagesOnlyMessage
  {
    var b := Basename(f.originalName);
    var x := Extension(b);
    var e := ToLower(x);
    assert FilterExtension(f) == e;
    if e in AllowedExtensions {
      AllowedExtensionNonEmpty(e);
      ExtensionSpec(b);
    }
  }

  lemma AllowedExtensionNonEmpty(e: string)
    requires e in AllowedExtensions
    ensures e != []
  {
  }

  /** The extension is lowercased before the comparison, so an upper-case JPG passes. */
  lemma UpperCaseExtensionAccepted()
    ensures FileFilter(FileInfo(ImagesField, "photo.JPG", "image/jpeg", 1)).Accept?
  {
    var f := FileInfo(ImagesField, "photo.JPG", "image/jpeg", 1);
    PhotoExtension();
    LowerJpg();
    assert FilterExtension(f) == AllowedExtensions[0];
    assert f.mimeType == AllowedMimeTypes[0];
  }

  lemma LowerJpg()
    ensures ToLower(".JPG") == ".jpg"
  {
    assert ToLower(".JPG")[1] == LowerChar('J') == 'j';
  }

  lemma PhotoExtension()
    ensures ExtName("photo.JPG") == ".JPG"
  {
    var name := "photo.JPG";
    PhotoBasename();
    PhotoLastDot();
    assert name[5..] == ".JPG";
  }

  lemma PhotoBasename()
    ensures Basename("photo.JPG") == "photo.JPG"
  {
    var name := "photo.JPG";
    assert StripTrailingSlashes(name) == name;
    LastIndexOfSpec(name, '/');
    assert '/' !in name;
  }

  lemma PhotoLastDot()
    ensures LastIndexOf("photo.JPG", '.') == Some(5)
  {
    var name := "photo.JPG";
    assert LastIndexOf(name[..6], '.') == Some(5);
    assert name[..8][..7] == name[..7] && name[..7][..6] == name[..6];
    assert LastIndexOf(name[..7], '.') == Some(5);
    assert LastIndexOf(name[..8], '.') == Some(5);
  }

  // ---------------------------------------------------------------------------------
  // storage params

  /** `String.prototype.replace('.', '')`: the first '.' removed. */
  function RemoveFirstDot(s: string): (r: string)
    ensures '.' !in s ==> r == s
    ensures s != [] && s[0] == '.' ==> r == s[1..]
  {
    if s == [] then []
    else if s[0] == '.' then s[1..]
    else [s[0]] + RemoveFirstDot(s[1..])
  }

  /** The format the file is stored in: its lowercased extension without the dot, or jpg. */
  function StoredFormat(name: string): string {
    var ext := RemoveFirstDot(ToLower(ExtName(name)));
    if ext == [] then DefaultFormat else ext
  }

  /** The Cloudinary upload parameters; `publicId` stands for the time-and-random name. */
  datatype StorageParams = StorageParams(folder: string, format: string, resourceType: string, publicId: string)

  function Params(f: FileInfo, publicId: string): (r: StorageParams)
    ensures r.folder == Folder && r.resourceType == ResourceType && r.publicId == publicId
  {
    StorageParams(Folder, StoredFormat(f.originalName), ResourceType, publicId)
  }

  /**
   * The stored format is never empty and has no dot; it is jpg for a name without an
   * extension or ending in a bare dot, and otherwise the lowercased extension after its dot.
   */
  lemma StoredFormatSpec(name: string)
    ensures var fmt := StoredFormat(name);
            && fmt != []
            && '.' !in fmt
            && (|ExtName(name)| <= 1 ==> fmt == DefaultFormat)
            && (|ExtName(name)| > 1 ==> fmt == ToLower(ExtName(name)[1..]))
  {
    var e := ExtName(name);
    var l := ToLower(e);
    ExtensionSpec(Basename(name));
    if e != [] {
      assert l[0] == '.';
      assert l[1..] == ToLower(e[1..]);
      forall i | 0 <= i < |l[1..]| ensures l[1..][i] != '.' {
        assert l[1..][i] == LowerChar(e[1..][i]);
        assert e[1..][i] != '.';
      }
    }
  }

  /** For a file the filter accepts, the stored format is one of the allowed ones and is the compared extension without its dot. */
  lemma AcceptedFormat(f: FileInfo)
    requires FileFilter(f).Accept?
    ensures StoredFormat(f.originalName) in AllowedFormats
    ensures "." + StoredFormat(f.originalName) == FilterExtension(f)
  {
    AllowedExtensionFormat(FilterExtension(f));
  }

  lemma AllowedExtensionFormat(l: string)
    requires l in AllowedExtensions
    ensures RemoveFirstDot(l) in AllowedFormats && RemoveFirstDot(l) != []
    ensures "." + RemoveFirstDot(l) == l
  {
    var i :| 0 <= i < |AllowedExtensions| && AllowedExtensions[i] == l;
    assert AllowedExtensions[i] == "." + AllowedFormats[i];
    assert RemoveFirstDot(l) == AllowedFormats[i];
  }

  // ---------------------------------------------------------------------------------
  // limits

  const FileCountCode := "LIMIT_FILE_COUNT"
  const FileSizeCode := "LIMIT_FILE_SIZE"
  const UnexpectedFileCode := "LIMIT_UNEXPECTED_FILE"

  /** An error raised while receiving files: one of multer's own, or any other error. */
  datatype UploadError = MulterError(code: string, message: string) | OtherError(reason: Option<string>)

  datatype Received = Received(files: seq<FileInfo>) | Refused(error: UploadError)

  /**
   * Whether one file, received as file number `i` (from 0), gets through every limit and the
   * filter. Multer takes the filter as a parameter; the route passes `FileFilter`.
   */
  predicate Admissible(f: FileInfo, i: nat, filter: FileInfo -> Decision) {
    i < MaxFiles && f.field == ImagesField && filter(f).Accept? && f.size <= MaxFileSize
  }

  /** The refusal that file number `i` causes when it is the first one not admissible. */
  function RefusalOf(f: FileInfo, i: nat, filter: FileInfo -> Decision): UploadError {
    if i >= MaxFiles then MulterError(FileCountCode, "Too many files")
    else if f.field != ImagesField then MulterError(UnexpectedFileCode, "Unexpected field")
    else if filter(f).Reject? then OtherError(Some(filter(f).message))
    else MulterError(FileSizeCode, "File too large")
  }

  /**
   * Receiving the files from position `i` on, in upload order. Each file is first counted
   * against the limit of 4, then its field is checked, then the filter runs, and then its
   * size is checked while it streams; the first file that fails ends the upload.
   */
  function ReceiveFrom(files: seq<FileInfo>, i: nat, filter: FileInfo -> Decision): Received
    requires i <= |files|
    decreases |files| - i
  {
    if i == |files| then Received(files)
    else if i >= MaxFiles then Refused(MulterError(FileCountCode, "Too many files"))
    else if files[i].field != ImagesField then Refused(MulterError(UnexpectedFileCode, "Unexpected field"))
    else if filter(files[i]).Reject? then Refused(OtherError(Some(filter(files[i]).message)))
    else if files[i].size > MaxFileSize then Refused(MulterError(FileSizeCode, "File too large"))
    else ReceiveFrom(files, i + 1, filter)
  }

  /** `productUpload`: the files of one request, through the image filter. */
  function Receive(files: seq<FileInfo>): Received {
    ReceiveFrom(files, 0, FileFilter)
  }

  /** The first file from position `i` on that does not get through; |files| when there is none. */
  function FirstInadmissible(files: seq<FileInfo>, i: nat, filter: FileInfo -> Decision): (k: nat)
    requires i <= |files|
    ensures i <= k <= |files|
    ensures forall j :: i <= j < k ==> Admissible(files[j], j, filter)
    ensures k < |files| ==> !Admissible(files[k], k, filter)
    decreases |files| - i
  {
    if i == |files| || !Admissible(files[i], i, filter) then i else FirstInadmissible(files, i + 1, filter)
  }

  /** Receiving stops at the first file that does not get through, and reports that file's refusal. */
  lemma {:induction false} ReceiveFromSpec(files: seq<FileInfo>, i: nat, filter: FileInfo -> Decision)
    requires i <= |files|
    ensures var k := FirstInadmissible(files, i, filter);
            ReceiveFrom(files, i, filter) ==
              if k == |files| then Received(files) else Refused(RefusalOf(files[k], k, filter))
    decreases |files| - i
  {
    if i < |files| && Admissible(files[i], i, filter) {
      ReceiveFromSpec(files, i + 1, filter);
    }
  }

  /**
   * A request's files all get through exactly when there are at most 4, all in the images
   * field, all accepted by the filter and none over 100 MiB; they are then kept in upload order.
   * Otherwise the first file that fails decides the error.
   */
  lemma ReceiveSpec(files: seq<FileInfo>)
    ensures Receive(files).Received? <==>
              && |files| <= MaxFiles
              && forall k :: 0 <= k < |files| ==>
                   files[k].field == ImagesField && FileFilter(files[k]).Accept? && files[k].size <= MaxFileSize
    ensures Receive(files).Received? ==> Receive(files).files == files
    ensures Receive(files).Refused? ==>
              var k := FirstInadmissible(files, 0, FileFilter);
              k < |files| && Receive(files).error == RefusalOf(files[k], k, FileFilter)
  {
    ReceiveFromSpec(files, 0, FileFilter);
    if |files| > MaxFiles {
      assert !Admissible(files[MaxFiles], MaxFiles, FileFilter);
    }
  }

  // ---------------------------------------------------------------------------------
  // handleMulterError

  datatype UploadFailure = FileTooLarge | TooManyFiles | UploadFailed(detail: string) | Refusal(message: string)

  /** What the error handler does: answer with a status and an error, or pass the error on to `next`. */
  datatype Handled = Respond(status: int, failure: UploadFailure) | PassOn

  function HandleUploadError(err: UploadError): Handled {
    match err
    case MulterError(code, message) =>
      if code == FileSizeCode then Respond(400, FileTooLarge)
      else if code == FileCountCode then Respond(400, TooManyFiles)
      else Respond(400, UploadFailed(message))
    case OtherError(reason) =>
      if reason.Some? && reason.value != [] then Respond(400, Refusal(reason.value))
      else PassOn
  }

  /**
   * Every error from the upload library is answered with 400; the size and count limits
   * each have their own answer and any other library error carries its message. Another
   * error is answered with its message when it has one, and passed on otherwise.
   */
  lemma HandleUploadErrorSpec(err: UploadError)
    ensures err.MulterError? ==> HandleUploadError(err).Respond? && HandleUploadError(err).status == 400
    ensures err.MulterError? ==>
              (HandleUploadError(err).failure == FileTooLarge <==> err.code == FileSizeCode)
              && (HandleUploadError(err).failure == TooManyFiles <==> err.code == FileCountCode)
              && (err.code != FileSizeCode && err.code != FileCountCode ==>
                    HandleUploadError(err).failure == UploadFailed(err.message))
    ensures err.OtherError? ==>
              (HandleUploadError(err).PassOn? <==> err.reason.None? || err.reason.value == [])
              && (HandleUploadError(err).Respond? ==>
                    HandleUploadError(err) == Respond(400, Refusal(err.reason.value)))
  {
  }

  /**
   * The route answers every refused upload itself, with 400: the first file that fails
   * decides whether it is the size, the count, the field or the filter's message.
   */
  lemma RefusedUploadAnswered400(files: seq<FileInfo>)
    requires Receive(files).Refused?
    ensures HandleUploadError(Receive(files).error).Respond?
    ensures HandleUploadError(Receive(files).error).status == 400
    ensures |files| > MaxFiles && (forall k :: 0 <= k < MaxFiles ==> Admissible(files[k], k, FileFilter)) ==>
              HandleUploadError(Receive(files).error).failure == TooManyFiles
  {
    ReceiveSpec(files);
    assert FileCountCode != FileSizeCode;
  }
}
