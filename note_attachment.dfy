// NoteAttachment: the MIME-type predicates, the extension of the original
// file name and the byte branch of the human-readable size.
module Attachments {
  import opened Wrappers
  import Strings

  /** An uploaded file's record; file names and paths as stored. */
  datatype Attachment = Attachment(
    originalFilename: Option<string>,
    filename: string,
    filePath: string,
    fileSize: Option<int>,
    mimeType: Option<string>)

  const WordDocx := "application/" + "vnd.openxmlformats-officedocument." + "wordprocessingml.document"
  const WordLegacy := "application/msword"
  const Pdf := "application/pdf"
  const ImagePrefix := "image/"

  predicate IsWordDocument(a: Attachment)
  {
    a.mimeType.Some? && (a.mimeType.value == WordDocx || a.mimeType.value == WordLegacy)
  }

  predicate IsPdf(a: Attachment)
  {
    a.mimeType == Some(Pdf)
  }

  predicate IsImage(a: Attachment)
  {
    a.mimeType.Some? && Strings.StartsWith(a.mimeType.value, ImagePrefix)
  }

  /** No MIME type satisfies two of the three predicates, and a null type satisfies none. */
  lemma {:induction false} MimePredicatesExclusive(a: Attachment)
    ensures !(IsWordDocument(a) && IsPdf(a))
    ensures !(IsWordDocument(a) && IsImage(a))
    ensures !(IsPdf(a) && IsImage(a))
    ensures a.mimeType.None? ==> !IsWordDocument(a) && !IsPdf(a) && !IsImage(a)
  {
    if IsImage(a) {
      var m := a.mimeType.value;
      assert m[0] == 'i' by { assert ImagePrefix <= m; assert ImagePrefix[0] == 'i'; }
      assert WordDocx[0] == 'a' && WordLegacy[0] == 'a' && Pdf[0] == 'a';
    }
  }

  /**
   * getFileExtension: the lower-cased text after the last '.', when that dot
   * is not the first character; "" for a null name, a name without a dot
   * or a name whose only dot leads.
   */
  function FileExtension(name: Option<string>): (r: string)
    ensures name.None? ==> r == ""
    ensures name.Some? ==>
      var dot := Strings.LastIndexOf(name.value, '.');
      (dot > 0 ==> r == Strings.Lower(name.value[dot + 1..])) && (dot <= 0 ==> r == "")
    ensures '.' !in r
  {
    match name
    case None => ""
    case Some(n) =>
      var dot := Strings.LastIndexOf(n, '.');
      if dot > 0 then
        var ext := n[dot + 1..];
        assert forall i :: 0 <= i < |ext| ==> ext[i] == n[dot + 1 + i];
        Strings.Lower(ext)
      else ""
  }

  /** The extension of a name with an inner dot is exactly the lower-cased text after that dot, when no later dot exists. */
  lemma {:induction false} ExtensionOfJoinedName(base: string, ext: string)
    requires |base| > 0 && '.' !in ext
    ensures FileExtension(Some(base + "." + ext)) == Strings.Lower(ext)
  {
    var n := base + "." + ext;
    var dot := Strings.LastIndexOf(n, '.');
    assert n[|base|] == '.';
    assert forall j :: |base| < j < |n| ==> n[j] == ext[j - |base| - 1];
    assert dot == |base|;
    assert n[dot + 1..] == ext;
  }

  /**
   * getFormattedFileSize: "Unknown" for a null size, "<n> B" below 1024; the
   * larger sizes are printed as a one-decimal floating-point quotient, which
   * is described here by its unit and divisor only.
   */
  datatype SizeText = Exact(text: string) | Scaled(unit: string, divisor: nat)

  function FormattedFileSize(size: Option<int>): (r: SizeText)
    ensures size.None? ==> r == Exact("Unknown")
    ensures size.Some? && size.value < 1024 ==> r == Exact(Strings.IntToString(size.value) + " B")
    ensures r.Scaled? ==> size.Some? && size.value >= 1024 && size.value >= r.divisor
    ensures r.Scaled? ==> r.divisor * 1024 > size.value || r.unit == "GB"
  {
    match size
    case None => Exact("Unknown")
    case Some(n) =>
      if n < 1024 then Exact(Strings.IntToString(n) + " B")
      else if n < 1024 * 1024 then Scaled("KB", 1024)
      else if n < 1024 * 1024 * 1024 then Scaled("MB", 1024 * 1024)
      else Scaled("GB", 1024 * 1024 * 1024)
  }
}
