/** The RoomRAG document store: the documents processed so far, the flat
    list of their text chunks used for retrieval, and the replies built from
    them when no language model answers. */
module RagEngine {
  import opened PyText
  import opened RagChunking
  import opened RagRanking

  newtype byte = x: int | 0 <= x < 256
  type Bytes = seq<byte>

  /** An uploaded file: its filename when it has one, and its raw content. */
  datatype Upload = Upload(filename: Option<string>, content: Bytes)

  /** One stored document (the `doc_info` dictionary). */
  datatype Document = Document(filename: string, content: string, chunks: seq<string>, size: nat, chunkCount: nat)

  /** One entry of get_document_info. */
  datatype DocumentInfo = DocumentInfo(filename: string, size: nat, chunkCount: nat, preview: string)

  /** What the language-model call in get_response gives: no client is
      configured, the call completed with a message, or the call raised. */
  datatype Completion = NoClient | Completed(text: string) | Raised

  const ChunkSize := 2000
  const MinTextLength := 50
  const RetrievalTopK := 5
  const NoDocumentsReply := "I don't have any documents to work with yet. Please upload some documents first!"
  const ClearedReply := "All documents cleared successfully!"
  const FallbackFooter := "For more detailed and intelligent answers, please ensure your OpenAI API key is configured."

  function FileName(file: Upload): string
  {
    match file.filename
    case Some(name) => name
    case None => "unknown.txt"
  }

  predicate IsPdfName(name: string)
  {
    EndsWith(Lower(name), ".pdf")
  }

  /** The text process_document extracts: PDF extraction for a `.pdf` name,
      UTF-8 decoding otherwise. Both are supplied by the caller. */
  function RawText(file: Upload, pdfText: Bytes -> string, decodeUtf8: Bytes -> string): string
  {
    if IsPdfName(FileName(file)) then pdfText(file.content) else decodeUtf8(file.content)
  }

  function PdfErrorMessage(name: string): string
  {
    "Error: Could not extract text from PDF '" + name + PdfErrorTail
  }

  const LittleTextTail := "' appears to contain very little readable text. It might be an image-based PDF or corrupted file."
  const PdfErrorTail := "'. The file might be corrupted or image-based."
  const ProcessedMid := "' processed successfully! Extracted "

  function LittleTextWarning(name: string): string
  {
    "Warning: Document '" + name + LittleTextTail
  }

  function ProcessedMessage(name: string, count: nat): string
  {
    "Document '" + name + ProcessedMid + NatToString(count) + " text chunks."
  }

  /** The chunks of the documents, document after document. */
  function AllChunks(docs: seq<Document>): seq<string>
  {
    if docs == [] then [] else AllChunks(docs[..|docs| - 1]) + docs[|docs| - 1].chunks
  }

  function FileNames(docs: seq<Document>): (names: seq<string>)
    ensures |names| == |docs| && forall i :: 0 <= i < |docs| ==> names[i] == docs[i].filename
  {
    seq(|docs|, i requires 0 <= i < |docs| => docs[i].filename)
  }

  /** `s[:limit] + "..."` when `s` is longer than `limit`, `s` otherwise. */
  function Truncated(s: string, limit: nat): (t: string)
    ensures |s| <= limit ==> t == s
    ensures |s| > limit ==> |t| == limit + 3 && s[..limit] <= t && EndsWith(t, "...")
  {
    if |s| > limit then s[..limit] + "..." else s
  }

  /** A document as process_document stores it: its content has the shape
      clean_text gives (no whitespace at either end, only plain spaces
      inside) and is at least 50 characters long, and its chunks are the
      chunking of that content, at least one of them. */
  ghost predicate StoredDocument(d: Document)
  {
    |d.content| >= MinTextLength
    && !IsSpace(d.content[0]) && !IsSpace(d.content[|d.content| - 1])
    && (forall i :: 0 <= i < |d.content| && IsSpace(d.content[i]) ==> d.content[i] == ' ')
    && IsChunkingOf(d.content, d.chunks, ChunkSize)
    && d.chunks != []
    && d.chunkCount == |d.chunks|
  }

  /** The store after one more document: the documents gain it at the end
      and the chunk list gains its chunks at the end. */
  predicate Appended(docsBefore: seq<Document>, chunksBefore: seq<string>, docsAfter: seq<Document>, chunksAfter: seq<string>)
  {
    |docsAfter| == |docsBefore| + 1
    && docsAfter[..|docsBefore|] == docsBefore
    && chunksAfter == chunksBefore + docsAfter[|docsBefore|].chunks
  }

  /** `d` is the document process_document builds from a file named `name`
      of `size` bytes whose cleaned text is `content`. */
  ghost predicate IsDocumentOf(d: Document, name: string, content: string, size: nat)
  {
    d.filename == name && d.content == content && d.size == size
    && IsChunkingOf(content, d.chunks, ChunkSize) && d.chunkCount == |d.chunks|
  }

  /** The store and the reply after process_document accepted the cleaned
      text `content` of a file named `name` of `size` bytes: one document
      built from it was appended, and the reply counts its chunks. */
  ghost predicate StoredAs(docsBefore: seq<Document>, chunksBefore: seq<string>, docsAfter: seq<Document>, chunksAfter: seq<string>,
                           msg: string, name: string, content: string, size: nat)
  {
    Appended(docsBefore, chunksBefore, docsAfter, chunksAfter)
    && IsDocumentOf(docsAfter[|docsBefore|], name, content, size)
    && msg == ProcessedMessage(name, docsAfter[|docsBefore|].chunkCount)
  }

  /** The outcome of process_document on `file`: a PDF from which no text
      could be extracted is reported as an error, a cleaned text shorter than
      50 characters draws a warning, and in both cases the store is left as
      it was; any other text is stored as one new document. */
  ghost predicate ProcessedAs(file: Upload, pdfText: Bytes -> string, decodeUtf8: Bytes -> string,
                              docsBefore: seq<Document>, chunksBefore: seq<string>, docsAfter: seq<Document>, chunksAfter: seq<string>,
                              msg: string)
  {
    var name := FileName(file);
    var raw := RawText(file, pdfText, decodeUtf8);
    if IsPdfName(name) && raw == [] then
      msg == PdfErrorMessage(name) && docsAfter == docsBefore && chunksAfter == chunksBefore
    else if |CleanText(raw)| < MinTextLength then
      msg == LittleTextWarning(name) && docsAfter == docsBefore && chunksAfter == chunksBefore
    else
      StoredAs(docsBefore, chunksBefore, docsAfter, chunksAfter, msg, name, CleanText(raw), |file.content|)
  }

  /** A document built from cleaned text of at least 50 characters and its
      chunking is one the store may hold. */
  lemma {:induction false} AcceptedIsStored(raw: string, d: Document)
    requires d.content == CleanText(raw) && |d.content| >= MinTextLength
    requires IsChunkingOf(d.content, d.chunks, ChunkSize) && d.chunkCount == |d.chunks|
    ensures StoredDocument(d)
  {
    CleanTextHasWord(raw);
    ChunkingNonEmpty(d.content, d.chunks, ChunkSize);
  }

  lemma {:induction false} StoredAppend(docs: seq<Document>, d: Document)
    requires forall i :: 0 <= i < |docs| ==> StoredDocument(docs[i])
    requires StoredDocument(d)
    ensures forall i :: 0 <= i < |docs + [d]| ==> StoredDocument((docs + [d])[i])
    ensures AllChunks(docs + [d]) == AllChunks(docs) + d.chunks
  {
    assert (docs + [d])[..|docs|] == docs;
  }

  lemma {:induction false} AllChunksEmpty(docs: seq<Document>)
    requires forall i :: 0 <= i < |docs| ==> docs[i].chunks != []
    ensures AllChunks(docs) == [] <==> docs == []
  {
  }

  /** The query as both replies quote it, between single quotes. */
  function Quoted(query: string): string
  {
    "'" + query + "'"
  }

  function NotFoundReply(query: string, names: seq<string>): string
  {
    "I couldn't find specific information about " + Quoted(query)
    + (" in your documents. However, I have these documents available: " + Join(names, ", ")
      + ". Try asking about specific topics, concepts, or content that might be in these documents.")
  }

  function FallbackIntro(query: string): string
  {
    "Based on your question about " + Quoted(query) + ", I found some relevant information:\n\n"
  }

  lemma {:induction false} QuotedOccurs(before: string, query: string, after: string)
    ensures Contains(before + Quoted(query) + after, Quoted(query))
  {
    OccursInConcat(before, Quoted(query), after, Quoted(query), 0);
    ContainsAt(before + Quoted(query) + after, Quoted(query), |before|);
  }

  /** One numbered entry of the fallback reply: `f"{i}. {chunk}\n\n"`. */
  function FallbackItem(n: nat, chunk: string): string
  {
    NatToString(n) + ". " + Truncated(chunk, 300) + "\n\n"
  }

  function FallbackItems(chunks: seq<string>): string
  {
    if chunks == [] then ""
    else FallbackItems(chunks[..|chunks| - 1]) + FallbackItem(|chunks|, chunks[|chunks| - 1])
  }

  /** What _fallback_response(query, relevant_chunks) returns. */
  function FallbackReply(query: string, relevant: seq<string>, names: seq<string>): (r: string)
    ensures Contains(r, Quoted(query))
  {
    if relevant == [] then
      QuotedOccurs("I couldn't find specific information about ", query,
        " in your documents. However, I have these documents available: " + Join(names, ", ")
        + ". Try asking about specific topics, concepts, or content that might be in these documents.");
      NotFoundReply(query, names)
    else
      var before := "Based on your question about ";
      var after := ", I found some relevant information:\n\n";
      var r := FallbackIntro(query) + FallbackItems(relevant) + FallbackFooter;
      assert r == before + Quoted(query) + (after + FallbackItems(relevant) + FallbackFooter);
      QuotedOccurs(before, query, after + FallbackItems(relevant) + FallbackFooter);
      r
  }

  /** Each relevant chunk appears in the fallback reply as the entry numbered
      by its rank, cut to 300 characters. */
  lemma {:induction false} FallbackListsEveryChunk(query: string, relevant: seq<string>, names: seq<string>, i: nat)
      returns (at: nat)
    requires i < |relevant|
    ensures OccursAt(FallbackReply(query, relevant, names), FallbackItem(i + 1, relevant[i]), at)
  {
    var p := FallbackItemAt(relevant, i);
    var intro := FallbackIntro(query);
    var items := FallbackItems(relevant);
    assert FallbackReply(query, relevant, names) == intro + items + FallbackFooter;
    OccursInConcat(intro, items, FallbackFooter, FallbackItem(i + 1, relevant[i]), p);
    at := |intro| + p;
  }

  lemma {:induction false} FallbackItemAt(chunks: seq<string>, i: nat) returns (p: nat)
    requires i < |chunks|
    ensures OccursAt(FallbackItems(chunks), FallbackItem(i + 1, chunks[i]), p)
    decreases |chunks|
  {
    var n := |chunks| - 1;
    var init := chunks[..n];
    var item := FallbackItem(i + 1, chunks[i]);
    var last := FallbackItem(n + 1, chunks[n]);
    assert FallbackItems(chunks) == FallbackItems(init) + last;
    if i == n {
      assert OccursAt(last, item, 0);
      OccursInConcat(FallbackItems(init), last, "", item, 0);
      p := |FallbackItems(init)|;
    } else {
      assert init[i] == chunks[i];
      p := FallbackItemAt(init, i);
      OccursInConcat("", FallbackItems(init), last, item, p);
    }
  }

  /** The RoomRAG engine's document store. */
  class RoomRag {
    var documents: seq<Document>
    var textChunks: seq<string>

    /** `text_chunks` is the concatenation of the stored documents' chunks,
        and every stored document has the shape StoredDocument describes. */
    ghost predicate Valid()
      reads this
    {
      textChunks == AllChunks(documents)
      && forall i :: 0 <= i < |documents| ==> StoredDocument(documents[i])
    }

    constructor ()
      ensures Valid()
      ensures documents == [] && textChunks == []
    {
      documents := [];
      textChunks := [];
    }

    /** process_document: extract and clean the text, reject it when too
        short, otherwise chunk it and store it. */
    method ProcessDocument(file: Upload, pdfText: Bytes -> string, decodeUtf8: Bytes -> string) returns (msg: string)
      requires Valid()
      modifies this
      ensures Valid()
      ensures ProcessedAs(file, pdfText, decodeUtf8, old(documents), old(textChunks), documents, textChunks, msg)
    {
      var name := FileName(file);
      var raw: string;
      if IsPdfName(name) {
        raw := pdfText(file.content);
        if raw == [] {
          return PdfErrorMessage(name);
        }
      } else {
        raw := decodeUtf8(file.content);
      }
      var cleaned := CleanText(raw);
      if cleaned == [] || |cleaned| < MinTextLength {
        return LittleTextWarning(name);
      }
      var chunks := ChunkText(cleaned, ChunkSize);
      var doc := Document(name, cleaned, chunks, |file.content|, |chunks|);
      AcceptedIsStored(raw, doc);
      Store(doc);
      msg := ProcessedMessage(name, |chunks|);
    }

    /** The two appends that end process_document: the document and its chunks. */
    method Store(doc: Document)
      requires Valid() && StoredDocument(doc)
      modifies this
      ensures Valid()
      ensures Appended(old(documents), old(textChunks), documents, textChunks)
      ensures documents == old(documents) + [doc]
    {
      StoredAppend(documents, doc);
      documents := documents + [doc];
      textChunks := textChunks + doc.chunks;
    }

    /** clear_documents */
    method ClearDocuments() returns (msg: string)
      modifies this
      ensures Valid()
      ensures documents == [] && textChunks == []
      ensures msg == ClearedReply
    {
      documents := [];
      textChunks := [];
      msg := ClearedReply;
    }

    /** get_document_count: no documents exactly when there are no chunks. */
    function DocumentCount(): (n: nat)
      reads this
      requires Valid()
      ensures n == |documents|
      ensures n == 0 <==> textChunks == []
    {
      AllChunksEmpty(documents);
      |documents|
    }

    /** get_document_info: one entry per stored document, in order. */
    function DocumentInfos(): (infos: seq<DocumentInfo>)
      reads this
      ensures |infos| == |documents|
      ensures forall i :: 0 <= i < |infos| ==>
        var d := documents[i];
        infos[i] == DocumentInfo(d.filename, d.size, d.chunkCount, Truncated(d.content, 100))
    {
      seq(|documents|, i reads this requires 0 <= i < |documents| =>
        DocumentInfo(documents[i].filename, documents[i].size, documents[i].chunkCount, Truncated(documents[i].content, 100)))
    }

    /** _fallback_response: the reply built from the retrieved chunks when no
        language model answers. */
    method FallbackResponse(query: string, relevant: seq<string>) returns (r: string)
      ensures r == FallbackReply(query, relevant, FileNames(documents))
    {
      if relevant == [] {
        var names := FileNames(documents);
        return NotFoundReply(query, names);
      }
      var items := "";
      for i := 0 to |relevant|
        invariant items == FallbackItems(relevant[..i])
      {
        var chunk := relevant[i];
        if |chunk| > 300 {
          chunk := chunk[..300] + "...";
        }
        var item := NatToString(i + 1) + ". " + chunk + "\n\n";
        assert item == FallbackItem(i + 1, relevant[i]);
        assert relevant[..i + 1][..i] == relevant[..i];
        items := items + item;
      }
      assert relevant[..|relevant|] == relevant;
      r := FallbackIntro(query) + items + FallbackFooter;
    }

    /** get_response. The `language` argument is accepted and not used. */
    method GetResponse(query: string, language: string, completion: Completion) returns (r: string)
      ensures documents == [] ==> r == NoDocumentsReply
      ensures documents != [] ==>
        var relevant := RelevantChunks(textChunks, query, RetrievalTopK);
        r == if completion.Completed? && relevant != [] then Strip(completion.text)
             else FallbackReply(query, relevant, FileNames(documents))
    {
      if documents == [] {
        return NoDocumentsReply;
      }
      var relevant := FindRelevantChunks(textChunks, query, RetrievalTopK);
      if completion.Completed? && relevant != [] {
        r := Strip(completion.text);
      } else {
        r := FallbackResponse(query, relevant);
      }
    }
  }
}
