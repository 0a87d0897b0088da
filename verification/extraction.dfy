/**
 `extract_invoice_data` and the batch loop of `main`: the file extension is
 taken from the upload's name, dispatched on exactly, and every failure inside
 the try block becomes an empty record. The rasteriser and the model are not
 modelled; each upload carries what they did with it.
 */
module Extraction {
  import opened Text
  import opened Records
  import opened ResponseParser

  /** How `extract_invoice_data` treats a file type. */
  datatype Format = Image | Pdf | Unsupported

  /** What the model call produced: a response whose text is `text`, or an
      exception. */
  datatype Reply = Ok(text: string) | Failed

  /** An uploaded file, with the outcome of the two foreign steps applied to
      it: whether `Image.open` (or PyMuPDF's first-page render) succeeds, and
      what the model call returns. */
  datatype Upload = Upload(name: string, decodes: bool, reply: Reply)

  /** What `extract_invoice_data` returns: the bare string of the unsupported
      branch, or a dictionary. */
  datatype Outcome = Message(text: string) | Record(fields: Dict<string>)

  const UnsupportedMessage: string := "Unsupported file type!"

  /** `file.name.split('.')[-1]`. */
  function FileExtension(name: string): (ext: string)
    ensures '.' !in ext
    ensures |ext| <= |name| && name[|name| - |ext|..] == ext
    ensures '.' in name ==> |ext| < |name| && name[|name| - |ext| - 1] == '.'
    ensures ext == name <==> '.' !in name
  {
    LastPieceSuffix(name, '.');
    LastPiece(name, '.')
  }

  /** Given the position of the last dot, the extension is everything after
      it. */
  lemma ExtensionAfterLastDot(name: string, i: nat)
    requires i < |name| && name[i] == '.'
    requires forall j :: i < j < |name| ==> name[j] != '.'
    ensures FileExtension(name) == name[i + 1..]
  {
    var ext := FileExtension(name);
    assert name[i] !in ext;
  }

  /** A name ending with a dot has the empty extension. */
  lemma ExtensionOfTrailingDot(name: string)
    requires name == "file."
    ensures FileExtension(name) == ""
  {
    ExtensionAfterLastDot(name, 4);
  }

  /** Only the last dot counts, and case is kept. */
  lemma ExtensionOfDottedName(name: string)
    requires name == "scan.final.PDF"
    ensures FileExtension(name) == "PDF"
  {
    ExtensionAfterLastDot(name, 10);
  }

  /** The branch `extract_invoice_data` takes: the comparison is exact and
      case-sensitive. */
  function Dispatch(ext: string): (f: Format)
    ensures f == Image <==> ext == "png" || ext == "jpg" || ext == "jpeg"
    ensures f == Pdf <==> ext == "pdf"
    ensures f == Unsupported <==> ext !in {"png", "jpg", "jpeg", "pdf"}
  {
    if ext == "png" || ext == "jpg" || ext == "jpeg" then Image
    else if ext == "pdf" then Pdf
    else Unsupported
  }

  /** The supported extensions are all lower-case, so any extension holding
      an upper-case letter, such as `PDF`, is unsupported. */
  lemma DispatchCaseSensitive(ext: string)
    ensures Dispatch(ext) != Unsupported ==> !HasUpper(ext) && 3 <= |ext| <= 4
    ensures HasUpper(ext) ==> Dispatch(ext) == Unsupported
    ensures Dispatch("PDF") == Unsupported && Dispatch("docx") == Unsupported
  {
    if Dispatch(ext) != Unsupported {
      assert ext in {"png", "jpg", "jpeg", "pdf"};
      assert !HasUpper(ext) by {
        if HasUpper(ext) {
          var k :| 0 <= k < |ext| && IsUpper(ext[k]);
          assert false;
        }
      }
    }
  }

  /** `extract_invoice_data(file, ext)`. */
  function ExtractInvoiceData(ext: string, decodes: bool, reply: Reply): (r: Outcome)
    ensures r.Message? <==> Dispatch(ext) == Unsupported
    ensures r.Message? ==> r.text == UnsupportedMessage
    ensures r.Record? ==> r.fields.Valid()
    ensures r.Record? && (!decodes || reply.Failed?) ==> r.fields == Empty()
    ensures r.Record? && decodes && reply.Ok? ==> r.fields == ParseResponse(reply.text)
  {
    match Dispatch(ext)
    case Unsupported => Message(UnsupportedMessage)
    case _ =>
      var response := if decodes then reply else Failed;
      match response
      case Failed => Record(Empty())
      case Ok(text) => Record(ParseResponse(text))
  }

  /** The entry `main` appends for one upload. */
  function Entry(u: Upload): Outcome {
    ExtractInvoiceData(FileExtension(u.name), u.decodes, u.reply)
  }

  /** The loop of `main`: one entry per upload, in upload order. */
  method AssembleBatch(uploads: seq<Upload>) returns (entries: seq<Outcome>)
    ensures |entries| == |uploads|
    ensures forall i :: 0 <= i < |uploads| ==> entries[i] == Entry(uploads[i])
  {
    entries := [];
    var i := 0;
    while i < |uploads|
      invariant i <= |uploads|
      invariant |entries| == i
      invariant forall j :: 0 <= j < i ==> entries[j] == Entry(uploads[j])
    {
      entries := entries + [Entry(uploads[i])];
      i := i + 1;
    }
  }
}
