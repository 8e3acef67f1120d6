/** `IdolServer`: the older helper that posts to an IDOL server on behalf of
    the queue committer. It writes every metadata pair as an IDX field, takes
    the document's reference from the `document.reference` field, puts the
    deletion reference into the URL as it is, and checks the server's answer
    for `INDEXID` only over the response lines it collected while debug
    logging was on. */
module IdolServer {
  import opened Wrappers
  import opened JavaLang
  import opened Seqs
  import opened UrlEncoding
  import opened Metadata
  import opened Operations
  import Idx

  /** The metadata field whose value becomes the IDX reference. */
  const ReferenceField: string := "document.reference"

  /** Why a post fails: the response, as joined, does not mention `INDEXID`. */
  datatype ServerError = UnexpectedResponse(response: string)

  /** The requests one call sent, in order, and how the call ended. */
  datatype Exchange = Exchange(sent: seq<Request>, outcome: Outcome<ServerError>)

  // --------------------------------------------------------------- reference

  /** The inner loop of `getDreReference` over one entry's values: each value
      of the reference field replaces the one found so far. */
  function ScanValues(key: string, values: seq<string>, found: string): (r: string)
    ensures r == if key == ReferenceField && |values| > 0 then values[|values| - 1] else found
  {
    if |values| == 0 then found
    else ScanValues(key, values[1..], if key == ReferenceField then values[0] else found)
  }

  /** The outer loop of `getDreReference` over the entries. */
  function ScanReference(p: Properties, found: string): (r: string)
    ensures var vs := ValuesOf(p, ReferenceField);
      r == if |vs| > 0 then vs[|vs| - 1] else found
  {
    if |p| == 0 then found
    else
      var head := if p[0].key == ReferenceField then p[0].values else [];
      var tail := ValuesOf(p[1..], ReferenceField);
      assert ValuesOf(p, ReferenceField) == head + tail;
      ScanReference(p[1..], ScanValues(p[0].key, p[0].values, found))
  }

  /** `getDreReference`: the last value stored under `document.reference`,
      across all entries, or the empty string when there is none. */
  function GetDreReference(p: Properties): (r: string)
    ensures var vs := ValuesOf(p, ReferenceField);
      r == if |vs| > 0 then vs[|vs| - 1] else ""
  {
    ScanReference(p, "")
  }

  /** In a map the reference is the last value of the single
      `document.reference` entry. */
  lemma DreReferenceOfMap(p: Properties)
    requires UniqueKeys(p)
    ensures Lookup(p, ReferenceField).Some? && |Lookup(p, ReferenceField).value| > 0 ==>
      var vs := Lookup(p, ReferenceField).value;
      GetDreReference(p) == vs[|vs| - 1]
    ensures Lookup(p, ReferenceField).None? || |Lookup(p, ReferenceField).value| == 0 ==>
      GetDreReference(p) == ""
  {
    var vs := ValuesOf(p, ReferenceField);
    var r := GetDreReference(p);
    assert r == if |vs| > 0 then vs[|vs| - 1] else "";
    ValuesOfLookup(p, ReferenceField);
    match Lookup(p, ReferenceField)
    case None =>
      assert vs == [];
    case Some(ws) =>
      assert vs == ws;
  }

  // ---------------------------------------------------------------- IDX body

  /** What `buildIdolDocument` takes from one queued document: the reference,
      every metadata pair as a field (the reference field included), the
      database name and the content text. */
  function IdolDocumentOf(doc: AddDocument, db: Option<string>): (d: Idx.Document)
    ensures var vs := ValuesOf(doc.metadata, ReferenceField);
      d.reference == if |vs| > 0 then vs[|vs| - 1] else ""
    ensures d.dbName == Str(db)
    ensures doc.content.Text? ==> d.content == doc.content.body
    ensures !doc.content.Text? ==> d.content == ""
  {
    Idx.Document(
      GetDreReference(doc.metadata),
      Pairs(doc.metadata),
      Str(db),
      if doc.content.Text? then doc.content.body else "")
  }

  /** Nothing is held back: each (key, value) pair of the metadata becomes a
      field line, including the reference field itself. */
  lemma IdolDocumentFields(doc: AddDocument, db: Option<string>, k: string, v: string)
    ensures Pair(k, v) in IdolDocumentOf(doc, db).fields <==>
      exists i :: 0 <= i < |doc.metadata| && doc.metadata[i].key == k && v in doc.metadata[i].values
  {
    PairsMembership(doc.metadata, k, v);
  }

  /** The text `buildIdolDocumentsBatch` appends for one document: nothing when
      its stream cannot be opened, the block cut short after the content marker
      when reading the stream fails, and the whole block otherwise. The cut
      block is the whole block of an empty document without its
      end-of-document marker. */
  function IdolDocumentTextAsWritten(doc: AddDocument, db: Option<string>): (t: string)
    ensures doc.content.CannotOpen? ==> t == ""
    ensures doc.content.CannotRead? ==> t == Idx.Head(IdolDocumentOf(doc, db))
    ensures doc.content.CannotRead? ==> t + Idx.EndDocTag == Idx.Block(IdolDocumentOf(doc, db))
    ensures doc.content.Text? ==> t == Idx.Block(IdolDocumentOf(doc, db))
  {
    match doc.content
    case CannotOpen => ""
    case CannotRead =>
      assert Idx.Head(IdolDocumentOf(doc, db)) + "" == Idx.Head(IdolDocumentOf(doc, db));
      Idx.Head(IdolDocumentOf(doc, db))
    case Text(_) => Idx.Block(IdolDocumentOf(doc, db))
  }

  /** No content stream fails while being read. */
  predicate NoReadFailure(adds: seq<AddDocument>) {
    forall i :: 0 <= i < |adds| ==> !adds[i].content.CannotRead?
  }

  /** The documents' texts, in order; without read failures, the IDX blocks of
      the readable documents. */
  function BlocksTextAsWritten(adds: seq<AddDocument>, db: Option<string>): (t: string)
    ensures NoReadFailure(adds) ==> t == Idx.Blocks(ReadableDocuments(adds, db))
  {
    if |adds| == 0 then ""
    else
      ReadableStep(adds, db);
      IdolDocumentTextAsWritten(adds[0], db) + BlocksTextAsWritten(adds[1..], db)
  }

  /** One document of the batch: the first document's text followed by the
      blocks of the rest is the blocks of the whole, when nothing fails to
      read. */
  lemma ReadableStep(adds: seq<AddDocument>, db: Option<string>)
    requires |adds| > 0
    ensures NoReadFailure(adds) ==> NoReadFailure(adds[1..])
    ensures NoReadFailure(adds) ==>
      IdolDocumentTextAsWritten(adds[0], db) + Idx.Blocks(ReadableDocuments(adds[1..], db))
        == Idx.Blocks(ReadableDocuments(adds, db))
  {
    if NoReadFailure(adds) {
      assert forall i :: 0 <= i < |adds[1..]| ==> adds[1..][i] == adds[i + 1];
      var rest := ReadableDocuments(adds[1..], db);
      if adds[0].content.Text? {
        var ds := [IdolDocumentOf(adds[0], db)] + rest;
        assert ds[0] == IdolDocumentOf(adds[0], db) && ds[1..] == rest;
      } else {
        assert !adds[0].content.CannotRead?;
        assert ReadableDocuments(adds, db) == rest;
      }
    }
  }

  /** `buildIdolDocumentsBatch` as written: the documents' texts, then the
      terminator. When no content stream fails mid-read, this is exactly the
      IDX batch of the documents whose streams open. */
  function BuildIdolDocumentsBatchAsWritten(adds: seq<AddDocument>, db: Option<string>): (s: string)
    ensures NoReadFailure(adds) ==> s == Idx.Batch(ReadableDocuments(adds, db))
  {
    BlocksTextAsWritten(adds, db) + Idx.EndDataTag
  }

  /** The documents of a batch whose content can be read, in order. */
  function ReadableDocuments(adds: seq<AddDocument>, db: Option<string>): (ds: seq<Idx.Document>)
    ensures |ds| <= |adds|
  {
    if |adds| == 0 then []
    else (if adds[0].content.Text? then [IdolDocumentOf(adds[0], db)] else []) + ReadableDocuments(adds[1..], db)
  }

  /** The readable documents of two lists are those of the first, then those
      of the second; a single document contributes itself exactly when its
      content is text. */
  lemma {:induction false} ReadableDocumentsAppend(a: seq<AddDocument>, b: seq<AddDocument>, db: Option<string>)
    ensures ReadableDocuments(a + b, db) == ReadableDocuments(a, db) + ReadableDocuments(b, db)
    ensures |a| == 1 ==> ReadableDocuments(a, db) == if a[0].content.Text? then [IdolDocumentOf(a[0], db)] else []
  {
    if |a| == 0 {
      assert a + b == b;
    } else {
      assert (a + b)[0] == a[0] && (a + b)[1..] == a[1..] + b;
      ReadableDocumentsAppend(a[1..], b, db);
      var head := if a[0].content.Text? then [IdolDocumentOf(a[0], db)] else [];
      Regroup3(head, ReadableDocuments(a[1..], db), ReadableDocuments(b, db));
      if |a| == 1 {
        assert a[1..] == [];
        assert head + [] == head;
      }
    }
  }

  /** Every document the corrected batch writes, one per readable content, is
      representable in the format. */
  predicate AllRepresentable(adds: seq<AddDocument>, db: Option<string>) {
    forall i :: 0 <= i < |adds| && adds[i].content.Text? ==> Idx.Decodable(IdolDocumentOf(adds[i], db))
  }

  /** Every document the batch as written starts to write, one per content
      stream that opens, is representable in the format: a content that fails
      mid-read still has its reference, fields and database written. */
  predicate WrittenRepresentable(adds: seq<AddDocument>, db: Option<string>) {
    forall i :: 0 <= i < |adds| && !adds[i].content.CannotOpen? ==> Idx.Decodable(IdolDocumentOf(adds[i], db))
  }

  /** A document whose content cannot be read leaves a block without its
      end-of-document marker, and the whole batch no longer reads as IDX. */
  lemma {:induction false} UnreadableBreaksBatch(adds: seq<AddDocument>, db: Option<string>, k: nat)
    requires WrittenRepresentable(adds, db)
    requires k < |adds| && adds[k].content.CannotRead?
    ensures Idx.ParseBatch(BuildIdolDocumentsBatchAsWritten(adds, db)).None?
  {
    WrittenRepresentableTail(adds, db);
    if adds[0].content.CannotRead? {
      BrokenStep(adds, db);
    } else {
      UnreadableInTail(adds, k);
      UnreadableBreaksBatch(adds[1..], db, k - 1);
      BrokenStep(adds, db);
    }
  }

  /** An unreadable document that is not the first is in the rest. */
  lemma UnreadableInTail(adds: seq<AddDocument>, k: nat)
    requires k < |adds| && adds[k].content.CannotRead? && !adds[0].content.CannotRead?
    ensures 1 <= k && adds[1..][k - 1].content.CannotRead?
  {
    assert adds[1..][k - 1] == adds[k];
  }

  /** A batch breaks at its first document when that document's content cannot
      be read, and otherwise wherever the rest of the batch breaks. */
  lemma BrokenStep(adds: seq<AddDocument>, db: Option<string>)
    requires |adds| > 0 && (!adds[0].content.CannotOpen? ==> Idx.Decodable(IdolDocumentOf(adds[0], db)))
    requires adds[0].content.CannotRead? || Idx.ParseBatch(BuildIdolDocumentsBatchAsWritten(adds[1..], db)).None?
    ensures Idx.ParseBatch(BuildIdolDocumentsBatchAsWritten(adds, db)).None?
  {
    var rest := BuildIdolDocumentsBatchAsWritten(adds[1..], db);
    AsWrittenCons(adds, db);
    match adds[0].content
    case CannotRead =>
      FollowingText(adds[1..], db);
      UnreadableFirst(adds[0], db, rest);
    case Text(_) =>
      ReadableFirst(adds[0], db, rest);
    case CannotOpen =>
      SkippedFirst(adds, db);
  }

  lemma AsWrittenCons(adds: seq<AddDocument>, db: Option<string>)
    requires |adds| > 0
    ensures BuildIdolDocumentsBatchAsWritten(adds, db)
      == IdolDocumentTextAsWritten(adds[0], db) + BuildIdolDocumentsBatchAsWritten(adds[1..], db)
  {
    Regroup3(IdolDocumentTextAsWritten(adds[0], db), BlocksTextAsWritten(adds[1..], db), Idx.EndDataTag);
  }

  lemma SkippedFirst(adds: seq<AddDocument>, db: Option<string>)
    requires |adds| > 0 && adds[0].content.CannotOpen?
    ensures BuildIdolDocumentsBatchAsWritten(adds, db) == BuildIdolDocumentsBatchAsWritten(adds[1..], db)
  {
    AsWrittenCons(adds, db);
    EmptyFront(IdolDocumentTextAsWritten(adds[0], db), BuildIdolDocumentsBatchAsWritten(adds[1..], db));
  }

  lemma EmptyFront(front: string, rest: string)
    requires front == ""
    ensures front + rest == rest
  {
  }

  lemma AllRepresentableTail(adds: seq<AddDocument>, db: Option<string>)
    requires |adds| > 0 && AllRepresentable(adds, db)
    ensures adds[0].content.Text? ==> Idx.Decodable(IdolDocumentOf(adds[0], db))
    ensures AllRepresentable(adds[1..], db)
  {
    forall i | 0 <= i < |adds[1..]| && adds[1..][i].content.Text?
      ensures Idx.Decodable(IdolDocumentOf(adds[1..][i], db))
    {
      assert adds[1..][i] == adds[i + 1];
    }
  }

  lemma WrittenRepresentableTail(adds: seq<AddDocument>, db: Option<string>)
    requires |adds| > 0 && WrittenRepresentable(adds, db)
    ensures !adds[0].content.CannotOpen? ==> Idx.Decodable(IdolDocumentOf(adds[0], db))
    ensures WrittenRepresentable(adds[1..], db)
  {
    forall i | 0 <= i < |adds[1..]| && !adds[1..][i].content.CannotOpen?
      ensures Idx.Decodable(IdolDocumentOf(adds[1..][i], db))
    {
      assert adds[1..][i] == adds[i + 1];
    }
  }

  /** A cut block followed by the next block or the terminator is no batch. */
  lemma UnreadableFirst(doc: AddDocument, db: Option<string>, rest: string)
    requires doc.content.CannotRead? && Idx.Decodable(IdolDocumentOf(doc, db))
    requires Idx.MarkerAt(rest, 0) && !StartsWith(rest, Idx.EndDocTag)
    ensures Idx.ParseBatch(IdolDocumentTextAsWritten(doc, db) + rest).None?
  {
    var s := IdolDocumentTextAsWritten(doc, db) + rest;
    Idx.ParseBlockTruncated(IdolDocumentOf(doc, db), rest);
    TextStartsWithReference(doc, db, rest);
    ReferenceTagStart(s);
    Idx.ParseBatchNoBlock(s);
  }

  /** A whole block followed by text that is no batch is no batch. */
  lemma ReadableFirst(doc: AddDocument, db: Option<string>, rest: string)
    requires doc.content.Text? && Idx.Decodable(IdolDocumentOf(doc, db))
    requires Idx.ParseBatch(rest).None?
    ensures Idx.ParseBatch(IdolDocumentTextAsWritten(doc, db) + rest).None?
  {
    var d := IdolDocumentOf(doc, db);
    var s := IdolDocumentTextAsWritten(doc, db) + rest;
    Idx.ParseBlockRoundTrip(d, rest);
    TextStartsWithReference(doc, db, rest);
    ReferenceTagStart(s);
    Idx.ParseBatchBadRest(s, d, rest);
  }

  /** The text of a document whose stream opens starts with the reference marker. */
  lemma TextStartsWithReference(doc: AddDocument, db: Option<string>, after: string)
    requires !doc.content.CannotOpen?
    ensures StartsWith(IdolDocumentTextAsWritten(doc, db) + after, Idx.ReferenceTag)
  {
    var d := IdolDocumentOf(doc, db);
    var x := IdolDocumentTextAsWritten(doc, db) + after;
    if doc.content.CannotRead? {
      Idx.HeadShape(d, after);
    } else {
      Idx.BlockShape(d, after);
    }
    assert x[..|Idx.ReferenceTag|] == Idx.ReferenceTag;
  }

  /** Text that starts with the reference marker starts a new marker, and is
      neither the end of a document nor the terminator. */
  lemma ReferenceTagStart(s: string)
    requires StartsWith(s, Idx.ReferenceTag)
    ensures Idx.MarkerAt(s, 0) && !StartsWith(s, Idx.EndDocTag) && s != Idx.EndDataTag
  {
    assert s[..|Idx.ReferenceTag|][5] == 'R';
    assert s[0] == s[..|Idx.ReferenceTag|][0] && s[1] == s[..|Idx.ReferenceTag|][1];
  }

  /** What follows a document's text is another block, a cut block or the
      terminator: a marker, but not the end-of-document one. */
  lemma {:induction false} FollowingText(adds: seq<AddDocument>, db: Option<string>)
    ensures var rest := BuildIdolDocumentsBatchAsWritten(adds, db);
      Idx.MarkerAt(rest, 0) && !StartsWith(rest, Idx.EndDocTag)
  {
    if |adds| == 0 {
      TerminatorIsMarker();
    } else {
      var after := BuildIdolDocumentsBatchAsWritten(adds[1..], db);
      AsWrittenCons(adds, db);
      if adds[0].content.CannotOpen? {
        FollowingText(adds[1..], db);
        SkippedFirst(adds, db);
      } else {
        TextStartsWithReference(adds[0], db, after);
        ReferenceTagStart(BuildIdolDocumentsBatchAsWritten(adds, db));
      }
    }
  }

  /** The terminator is a marker, but not the end-of-document one. */
  lemma TerminatorIsMarker()
    ensures Idx.MarkerAt(Idx.EndDataTag, 0) && !StartsWith(Idx.EndDataTag, Idx.EndDocTag)
  {
    assert Idx.EndDataTag[..|Idx.EndDocTag|][9] != Idx.EndDocTag[9];
  }

  /** The batch with a document whose content cannot be read left out, as is
      done for one whose stream cannot be opened. Read back, it yields the
      readable documents, in order, each with the reference, fields, database
      and content taken from it; where no content fails mid-read it is the
      batch as written. */
  function BuildIdolDocumentsBatch(adds: seq<AddDocument>, db: Option<string>): (s: string)
    ensures AllRepresentable(adds, db) ==> Idx.ParseBatch(s) == Some(ReadableDocuments(adds, db))
    ensures NoReadFailure(adds) ==> s == BuildIdolDocumentsBatchAsWritten(adds, db)
  {
    BatchRoundTrip(adds, db);
    Idx.Batch(ReadableDocuments(adds, db))
  }

  lemma BatchRoundTrip(adds: seq<AddDocument>, db: Option<string>)
    ensures AllRepresentable(adds, db) ==> Idx.ParseBatch(Idx.Batch(ReadableDocuments(adds, db))) == Some(ReadableDocuments(adds, db))
  {
    if AllRepresentable(adds, db) {
      ReadableDecodable(adds, db);
      Idx.ParseBatchRoundTrip(ReadableDocuments(adds, db));
    }
  }

  lemma {:induction false} ReadableDecodable(adds: seq<AddDocument>, db: Option<string>)
    requires AllRepresentable(adds, db)
    ensures Idx.AllDecodable(ReadableDocuments(adds, db))
  {
    if |adds| > 0 {
      AllRepresentableTail(adds, db);
      ReadableDecodable(adds[1..], db);
      var head := if adds[0].content.Text? then [IdolDocumentOf(adds[0], db)] else [];
      assert Idx.AllDecodable(head);
      assert ReadableDocuments(adds, db) == head + ReadableDocuments(adds[1..], db);
      Idx.AllDecodableAppend(head, ReadableDocuments(adds[1..], db));
    }
  }

  // --------------------------------------------------------------------- URLs

  /** The DREADDDATA request of `add` as written: the batch as written goes
      to `DREADDDATA?`. When no content fails mid-read the body reads back as
      the readable documents; when one does and every document started is
      representable, the body is no IDX batch at all. */
  function AddRequestAsWritten(url: string, adds: seq<AddDocument>, db: Option<string>): (r: Request)
    ensures r.url == url + "DREADDDATA?"
    ensures AllRepresentable(adds, db) && NoReadFailure(adds) ==>
      Idx.ParseBatch(r.body) == Some(ReadableDocuments(adds, db))
    ensures WrittenRepresentable(adds, db) && !NoReadFailure(adds) ==> Idx.ParseBatch(r.body).None?
  {
    AsWrittenBody(adds, db);
    Request(url + "DREADDDATA?", BuildIdolDocumentsBatchAsWritten(adds, db))
  }

  /** What the body as written reads back as, with and without a read
      failure. */
  lemma AsWrittenBody(adds: seq<AddDocument>, db: Option<string>)
    ensures AllRepresentable(adds, db) && NoReadFailure(adds) ==>
      Idx.ParseBatch(BuildIdolDocumentsBatchAsWritten(adds, db)) == Some(ReadableDocuments(adds, db))
    ensures WrittenRepresentable(adds, db) && !NoReadFailure(adds) ==>
      Idx.ParseBatch(BuildIdolDocumentsBatchAsWritten(adds, db)).None?
  {
    if AllRepresentable(adds, db) && NoReadFailure(adds) {
      BatchRoundTrip(adds, db);
    }
    if WrittenRepresentable(adds, db) && !NoReadFailure(adds) {
      var k :| 0 <= k < |adds| && adds[k].content.CannotRead?;
      UnreadableBreaksBatch(adds, db, k);
    }
  }

  /** The DREADDDATA request of `add` with the corrected batch: the body reads
      back as the readable documents whatever fails. */
  function AddRequest(url: string, adds: seq<AddDocument>, db: Option<string>): (r: Request)
    ensures r.url == url + "DREADDDATA?"
    ensures AllRepresentable(adds, db) ==> Idx.ParseBatch(r.body) == Some(ReadableDocuments(adds, db))
  {
    Request(url + "DREADDDATA?", BuildIdolDocumentsBatch(adds, db))
  }

  /** The raw `Docs` text of a deletion URL is the raw value the reference
      text itself starts with: everything before its first `&`. */
  lemma DocsValue(front: string, v: string, dbName: string)
    ensures var u := front + v + "&DREDbName=" + dbName;
      StartsWith(u, front) && QueryValue(u[|front|..]) == QueryValue(v)
  {
    var more := "DREDbName=" + dbName;
    var u := front + v + "&DREDbName=" + dbName;
    assert "&DREDbName=" + dbName == "&" + more;
    Regroup3(front + v, "&DREDbName=", dbName);
    Regroup3(front, v, "&DREDbName=" + dbName);
    assert u[..|front|] == front;
    assert u[|front|..] == v + ("&" + more);
    QueryValueAppend(v, more);
  }

  /** The DREDELETEREF request of `delete` as written: the reference goes into
      the URL without encoding, and is also the request body. The raw `Docs`
      text is the reference only up to its first `&`, so it is the whole
      reference exactly when the reference holds no `&`. */
  function DeleteRequestAsWritten(url: string, reference: string, dreDbName: Option<string>): (r: Request)
    ensures r.body == reference
    ensures StartsWith(r.url, url + "DREDELETEREF?Docs=")
    ensures QueryValue(r.url[|url + "DREDELETEREF?Docs="|..]) == QueryValue(reference)
    ensures QueryValue(r.url[|url + "DREDELETEREF?Docs="|..]) == reference <==> '&' !in reference
  {
    DocsValue(url + "DREDELETEREF?Docs=", reference, Str(dreDbName));
    Request(url + "DREDELETEREF?Docs=" + reference + "&DREDbName=" + Str(dreDbName), reference)
  }

  /** A server that splits the `Docs` value at `+`, the separator of a
      deletion list, gets back the one reference sent exactly when it holds
      neither `&` nor `+`: a raw `+` turns one reference into several. */
  lemma DocsEntriesAsWritten(url: string, reference: string, dreDbName: Option<string>)
    ensures var front := url + "DREDELETEREF?Docs=";
      var docs := QueryValue(DeleteRequestAsWritten(url, reference, dreDbName).url[|front|..]);
      Split(docs, '+') == [reference] <==> '&' !in reference && '+' !in reference
  {
    var front := url + "DREDELETEREF?Docs=";
    var docs := QueryValue(DeleteRequestAsWritten(url, reference, dreDbName).url[|front|..]);
    SplitSingle(docs, '+');
  }

  /** The DREDELETEREF request with the reference URL-encoded, as the newer
      committer does: the `Docs` parameter is the whole encoded reference,
      whatever characters the reference holds. */
  function DeleteRequest(url: string, reference: string, dreDbName: Option<string>): (r: Request)
    ensures r.body == reference
    ensures StartsWith(r.url, url + "DREDELETEREF?Docs=")
    ensures QueryValue(r.url[|url + "DREDELETEREF?Docs="|..]) == FormEncode(reference)
  {
    FormEncodeIsQuerySafe(reference);
    DocsValue(url + "DREDELETEREF?Docs=", FormEncode(reference), Str(dreDbName));
    Request(url + "DREDELETEREF?Docs=" + FormEncode(reference) + "&DREDbName=" + Str(dreDbName), reference)
  }

  /** With the reference encoded, splitting the `Docs` value at `+` gives back
      the one encoded reference exactly when the reference holds no space,
      the one character the encoding turns into `+`. */
  lemma DocsEntriesCorrected(url: string, reference: string, dreDbName: Option<string>)
    ensures var front := url + "DREDELETEREF?Docs=";
      var docs := QueryValue(DeleteRequest(url, reference, dreDbName).url[|front|..]);
      Split(docs, '+') == [FormEncode(reference)] <==> ' ' !in reference
  {
    var front := url + "DREDELETEREF?Docs=";
    var docs := QueryValue(DeleteRequest(url, reference, dreDbName).url[|front|..]);
    SplitSingle(docs, '+');
  }

  /** The DRESYNC request of `sync`: `DRESYNC` after the given URL, and an
      empty body. */
  function SyncRequest(url: string): (r: Request)
    ensures StartsWith(r.url, url) && r.url[|url|..] == "DRESYNC"
    ensures r.body == ""
  {
    assert (url + "DRESYNC")[..|url|] == url;
    Request(url + "DRESYNC", "")
  }

  // ---------------------------------------------------------------- response

  /** The lines `String.trim()` does not reduce to nothing, in order: every
      such line is kept, and nothing else. */
  function NonBlankLines(lines: seq<string>): (r: seq<string>)
    ensures |r| <= |lines|
    ensures forall i :: 0 <= i < |r| ==> |Trim(r[i])| > 0 && r[i] in lines
    ensures forall x :: x in lines && |Trim(x)| > 0 ==> x in r
  {
    if |lines| == 0 then []
    else
      var tail := NonBlankLines(lines[1..]);
      assert forall x :: x in lines ==> x == lines[0] || x in lines[1..];
      if |Trim(lines[0])| > 0 then [lines[0]] + tail else tail
  }

  /** Filtering two runs of lines is filtering each, in order; a single line
      is kept exactly when it is not blank. */
  lemma {:induction false} NonBlankLinesAppend(a: seq<string>, b: seq<string>)
    ensures NonBlankLines(a + b) == NonBlankLines(a) + NonBlankLines(b)
    ensures |a| == 1 ==> NonBlankLines(a) == if |Trim(a[0])| > 0 then [a[0]] else []
  {
    if |a| == 0 {
      assert a + b == b;
    } else {
      assert (a + b)[0] == a[0] && (a + b)[1..] == a[1..] + b;
      NonBlankLinesAppend(a[1..], b);
      var head := if |Trim(a[0])| > 0 then [a[0]] else [];
      Regroup3(head, NonBlankLines(a[1..]), NonBlankLines(b));
      if |a| == 1 {
        assert a[1..] == [];
        assert head + [] == head;
      }
    }
  }

  /** The response lines `post` collects as written: with debug logging on,
      the non-blank lines of the answer, among which `INDEXID` occurs exactly
      when the answer holds it; with it off, none. */
  function CollectedLinesAsWritten(debug: bool, body: string): (r: seq<string>)
    ensures !debug ==> r == []
    ensures forall i :: 0 <= i < |r| ==> |Trim(r[i])| > 0 && r[i] in ReadLines(body)
    ensures debug ==> forall x :: x in ReadLines(body) && |Trim(x)| > 0 ==> x in r
    ensures debug ==> (SomeContains(r, "INDEXID") <==> Contains(body, "INDEXID"))
  {
    IndexIdIsWord();
    NonBlankKeepsWord(ReadLines(body), "INDEXID");
    ContainsLines(body, "INDEXID");
    if debug then NonBlankLines(ReadLines(body)) else []
  }

  /** `post`'s verdict as written. An I/O failure is reported and swallowed;
      otherwise the collected lines, joined with spaces, must mention
      `INDEXID`. */
  function CheckResponseAsWritten(debug: bool, reply: Reply): (o: Outcome<ServerError>)
    ensures reply.IoFailure? ==> o.Pass?
    ensures reply.Received? && o.Fail? ==> o.error == UnexpectedResponse(Join(CollectedLinesAsWritten(debug, reply.body), " "))
    ensures !debug && reply.Received? ==> o == Fail(UnexpectedResponse(""))
    ensures debug && reply.Received? ==> (o.Pass? <==> Contains(reply.body, "INDEXID"))
  {
    match reply
    case IoFailure => Pass
    case Received(body) =>
      assert !OccursAt("", "INDEXID", 0);
      IndexIdSurvivesLineJoin(body);
      var response := Join(CollectedLinesAsWritten(debug, body), " ");
      if Contains(response, "INDEXID") then Pass else Fail(UnexpectedResponse(response))
  }

  /** `post`'s verdict with every non-blank line collected. */
  function CheckResponse(reply: Reply): (o: Outcome<ServerError>)
    ensures reply.IoFailure? ==> o.Pass?
    ensures reply.Received? ==> (o.Pass? <==> Contains(reply.body, "INDEXID"))
  {
    match reply
    case IoFailure => Pass
    case Received(body) =>
      var response := Join(NonBlankLines(ReadLines(body)), " ");
      IndexIdSurvivesLineJoin(body);
      if Contains(response, "INDEXID") then Pass else Fail(UnexpectedResponse(response))
  }

  /** With debug logging on, the verdict as written is the corrected one. */
  lemma DebugOnMatchesCorrected(reply: Reply)
    ensures CheckResponseAsWritten(true, reply) == CheckResponse(reply)
  {
  }

  /** A word with no space and no line terminator survives splitting the body
      into lines, dropping blank ones and joining the rest with spaces. */
  lemma IndexIdSurvivesLineJoin(body: string)
    ensures Contains(Join(NonBlankLines(ReadLines(body)), " "), "INDEXID") <==> Contains(body, "INDEXID")
  {
    var w := "INDEXID";
    var lines := ReadLines(body);
    IndexIdIsWord();
    ContainsJoin(NonBlankLines(lines), " ", w);
    NonBlankKeepsWord(lines, w);
    ContainsLines(body, w);
  }

  /** `INDEXID` is a word: every character is above U+0020. */
  lemma IndexIdIsWord()
    ensures forall k :: 0 <= k < |"INDEXID"| ==> "INDEXID"[k] > ' '
    ensures ' ' !in "INDEXID" && '\n' !in "INDEXID" && '\r' !in "INDEXID"
  {
  }

  /** Dropping blank lines loses no occurrence of a word that holds a character
      above U+0020. */
  lemma {:induction false} NonBlankKeepsWord(lines: seq<string>, w: string)
    requires |w| > 0 && forall k :: 0 <= k < |w| ==> w[k] > ' '
    ensures SomeContains(NonBlankLines(lines), w) <==> SomeContains(lines, w)
  {
    if |lines| > 0 {
      var x := lines[0];
      NonBlankKeepsWord(lines[1..], w);
      assert lines == [x] + lines[1..];
      SomeContainsCons(x, lines[1..], w);
      if |Trim(x)| > 0 {
        SomeContainsCons(x, NonBlankLines(lines[1..]), w);
      } else {
        WordMakesLineNonBlank(x, w);
      }
    }
  }

  lemma WordMakesLineNonBlank(x: string, w: string)
    requires |w| > 0 && forall k :: 0 <= k < |w| ==> w[k] > ' '
    ensures Contains(x, w) ==> |Trim(x)| > 0
  {
    if Contains(x, w) {
      var i :| OccursAt(x, w, i);
      CharOfOccurrence(x, w, i, i);
      assert x[i] > ' ';
    }
  }

  // -------------------------------------------------------------- operations

  /** `add` as written: one DREADDDATA post of the batch as written, judged by
      the response check as written. With debug logging off it succeeds only
      when the post fails with an I/O error. */
  function AddAsWritten(url: string, adds: seq<AddDocument>, db: Option<string>, debug: bool, server: Request -> Reply): (x: Exchange)
    ensures x.sent == [AddRequestAsWritten(url, adds, db)]
    ensures x.outcome == CheckResponseAsWritten(debug, server(x.sent[0]))
    ensures x.outcome.Pass? <==> server(x.sent[0]).IoFailure?
                                 || (debug && Contains(server(x.sent[0]).body, "INDEXID"))
  {
    var req := AddRequestAsWritten(url, adds, db);
    Exchange([req], CheckResponseAsWritten(debug, server(req)))
  }

  /** `delete` as written: one DREDELETEREF post with the reference unencoded
      in the URL and as the body, judged by the response check as written. */
  function DeleteAsWritten(url: string, reference: string, dreDbName: Option<string>, debug: bool, server: Request -> Reply): (x: Exchange)
    ensures x.sent == [DeleteRequestAsWritten(url, reference, dreDbName)]
    ensures x.sent[0].body == reference
    ensures x.outcome == CheckResponseAsWritten(debug, server(x.sent[0]))
    ensures x.outcome.Pass? <==> server(x.sent[0]).IoFailure?
                                 || (debug && Contains(server(x.sent[0]).body, "INDEXID"))
  {
    var req := DeleteRequestAsWritten(url, reference, dreDbName);
    Exchange([req], CheckResponseAsWritten(debug, server(req)))
  }

  /** `sync` as written: one DRESYNC post with an empty body, judged by the
      response check as written. */
  function SyncAsWritten(url: string, debug: bool, server: Request -> Reply): (x: Exchange)
    ensures x.sent == [SyncRequest(url)] && x.sent[0].body == ""
    ensures x.outcome == CheckResponseAsWritten(debug, server(x.sent[0]))
    ensures x.outcome.Pass? <==> server(x.sent[0]).IoFailure?
                                 || (debug && Contains(server(x.sent[0]).body, "INDEXID"))
  {
    var req := SyncRequest(url);
    Exchange([req], CheckResponseAsWritten(debug, server(req)))
  }

  /** `add` with the three defects corrected: the corrected batch, judged over
      every non-blank answer line. It fails exactly when the answer lacks
      `INDEXID`. */
  function Add(url: string, adds: seq<AddDocument>, db: Option<string>, server: Request -> Reply): (x: Exchange)
    ensures x.sent == [AddRequest(url, adds, db)]
    ensures x.outcome.Fail? <==> server(AddRequest(url, adds, db)).Received?
                                 && !Contains(server(AddRequest(url, adds, db)).body, "INDEXID")
  {
    var req := AddRequest(url, adds, db);
    Exchange([req], CheckResponse(server(req)))
  }

  /** `delete` corrected: the reference URL-encoded in the URL, the answer
      judged over every non-blank line. */
  function Delete(url: string, reference: string, dreDbName: Option<string>, server: Request -> Reply): (x: Exchange)
    ensures x.sent == [DeleteRequest(url, reference, dreDbName)]
    ensures x.sent[0].body == reference
    ensures x.outcome.Fail? <==> server(x.sent[0]).Received? && !Contains(server(x.sent[0]).body, "INDEXID")
  {
    var req := DeleteRequest(url, reference, dreDbName);
    Exchange([req], CheckResponse(server(req)))
  }

  /** `sync` corrected: the answer judged over every non-blank line. */
  function Sync(url: string, server: Request -> Reply): (x: Exchange)
    ensures x.sent == [SyncRequest(url)] && x.sent[0].body == ""
    ensures x.outcome.Fail? <==> server(x.sent[0]).Received? && !Contains(server(x.sent[0]).body, "INDEXID")
  {
    var req := SyncRequest(url);
    Exchange([req], CheckResponse(server(req)))
  }
}
