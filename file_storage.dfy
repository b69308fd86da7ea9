// The upload checks and the stored-name scheme of the attachment store.
// The clock and the random UUID are parameters; the file system is left out.
module FileStorage {
  import opened Wrappers
  import Strings
  import Seqs
  import Attachments

  /** The nine accepted content types. */
  const AllowedMimeTypes: seq<string> := [
    Attachments.WordDocx, Attachments.WordLegacy, Attachments.Pdf,
    "image/jpeg", "image/png", "image/gif", "image/webp", "text/plain", "text/markdown"]

  /** 50 MB. */
  const MaxFileSize: int := 50 * 1024 * 1024

  /** What the upload hands over: the size, the declared content type and the cleaned original name. */
  datatype Upload = Upload(size: int, contentType: Option<string>, originalFilename: string)

  datatype Rejection = EmptyFile | TooLarge | TypeNotAllowed | InvalidPathSequence

  /** validateFile: empty first, then size, then type. */
  function ValidateFile(u: Upload): (r: Option<Rejection>)
    ensures r.None? <==> u.size != 0 && u.size <= MaxFileSize && u.contentType.Some? && u.contentType.value in AllowedMimeTypes
    ensures u.size == 0 ==> r == Some(EmptyFile)
    ensures u.size != 0 && u.size > MaxFileSize ==> r == Some(TooLarge)
    ensures r == Some(TypeNotAllowed) ==> u.size != 0 && u.size <= MaxFileSize
  {
    if u.size == 0 then Some(EmptyFile)
    else if u.size > MaxFileSize then Some(TooLarge)
    else if u.contentType.None? || u.contentType.value !in AllowedMimeTypes then Some(TypeNotAllowed)
    else None
  }

  /** Every accepted file is among the types the attachment view treats specially, or is plain text or Markdown. */
  lemma AcceptedKinds(u: Upload, a: Attachments.Attachment)
    requires ValidateFile(u).None? && a.mimeType == u.contentType
    ensures Attachments.IsWordDocument(a) || Attachments.IsPdf(a) || Attachments.IsImage(a)
            || a.mimeType == Some("text/plain") || a.mimeType == Some("text/markdown")
  {
    var m := u.contentType.value;
    if m in ["image/jpeg", "image/png", "image/gif", "image/webp"] {
      assert Attachments.ImagePrefix == m[..6];
    }
  }

  predicate SafeChar(c: char)
  {
    ('a' <= c <= 'z') || ('A' <= c <= 'Z') || ('0' <= c <= '9') || c == '.' || c == '_' || c == '-'
  }

  /** replaceAll("[^a-zA-Z0-9._-]", "_"). */
  function Sanitize(s: string): (r: string)
    ensures |r| == |s|
    ensures forall i :: 0 <= i < |s| ==> r[i] == (if SafeChar(s[i]) then s[i] else '_')
  {
    if |s| == 0 then "" else [if SafeChar(s[0]) then s[0] else '_'] + Sanitize(s[1..])
  }

  /** Sanitizing leaves only safe characters, and a second pass changes nothing. */
  lemma SanitizeSafe(s: string)
    ensures forall i :: 0 <= i < |Sanitize(s)| ==> SafeChar(Sanitize(s)[i])
    ensures Sanitize(Sanitize(s)) == Sanitize(s)
  {
  }

  /** The name split at its last dot when that dot is not the first character; otherwise no extension. */
  function SplitExtension(name: string): (r: (string, string))
    ensures r.0 + r.1 == name
    ensures r.1 != "" ==> r.1[0] == '.' && |r.0| > 0 && '.' !in r.1[1..]
    ensures r.1 == "" ==> Strings.LastIndexOf(name, '.') <= 0
  {
    var dot := Strings.LastIndexOf(name, '.');
    if dot > 0 then
      var tail := name[dot + 1..];
      assert forall j :: 0 <= j < |tail| ==> tail[j] == name[dot + 1 + j];
      (name[..dot], name[dot..])
    else (name, "")
  }

  /** generateUniqueFilename: timestamp, the UUID's first eight characters, the sanitized base and the extension. */
  function UniqueFilename(original: string, timestamp: string, uuid8: string): (r: string)
    ensures |r| == |timestamp| + |uuid8| + 2 + |original|
    ensures r[..|timestamp| + |uuid8| + 2] == timestamp + "_" + uuid8 + "_"
    ensures r[|r| - |SplitExtension(original).1|..] == SplitExtension(original).1
  {
    var parts := SplitExtension(original);
    timestamp + "_" + uuid8 + "_" + Sanitize(parts.0) + parts.1
  }

  /** A name with an extension is its base, a dot and the extension. */
  lemma SplitExtensionJoins(name: string)
    requires Strings.LastIndexOf(name, '.') > 0
    ensures var parts := SplitExtension(name);
      parts.1 != "" && parts.1 == "." + parts.1[1..] && name == parts.0 + "." + parts.1[1..]
  {
    var parts := SplitExtension(name);
    assert name[Strings.LastIndexOf(name, '.')] == '.';
    assert parts.1 == "." + parts.1[1..];
    Seqs.AppendAssoc(parts.0, ".", parts.1[1..]);
  }

  /** The stored name keeps the original's extension whenever the original has one. */
  lemma UniqueFilenameKeepsExtension(original: string, timestamp: string, uuid8: string)
    requires Attachments.FileExtension(Some(original)) != ""
    ensures Attachments.FileExtension(Some(UniqueFilename(original, timestamp, uuid8))) == Attachments.FileExtension(Some(original))
  {
    var parts := SplitExtension(original);
    SplitExtensionJoins(original);
    var ext := parts.1[1..];
    var base := timestamp + "_" + uuid8 + "_" + Sanitize(parts.0);
    assert UniqueFilename(original, timestamp, uuid8) == base + parts.1;
    Seqs.AppendAssoc(base, ".", ext);
    Attachments.ExtensionOfJoinedName(base, ext);
    Attachments.ExtensionOfJoinedName(parts.0, ext);
  }

  /**
   * storeFile up to the copy: the checks of validateFile, then the stored
   * name, then the refusal of a name holding "..", before anything is
   * written; the record carries both names, the path and the declared
   * size and type.
   */
  function StoreFile(u: Upload, dir: string, timestamp: string, uuid8: string): (r: Result<Attachments.Attachment>)
    ensures ValidateFile(u).Some? ==> r.Err?
    ensures r.Ok? <==> ValidateFile(u).None? && !Strings.Contains(u.originalFilename, "..")
    ensures r.Ok? ==> r.value.originalFilename == Some(u.originalFilename)
    ensures r.Ok? ==> r.value.filename == UniqueFilename(u.originalFilename, timestamp, uuid8)
    ensures r.Ok? ==> r.value.fileSize == Some(u.size) && r.value.mimeType == u.contentType
  {
    var check := ValidateFile(u);
    if check.Some? then Err(InvalidArgument("Upload rejected"))
    else
      var stored := UniqueFilename(u.originalFilename, timestamp, uuid8);
      if Strings.Contains(u.originalFilename, "..") then Err(InvalidArgument("Filename contains invalid path sequence"))
      else
        Ok(Attachments.Attachment(Some(u.originalFilename), stored, dir + "/" + stored, Some(u.size), u.contentType))
  }
}
