/** The commit operations the committers receive from the queue, and the HTTP
    exchange they perform with the IDOL server. */
module Operations {
  import opened Metadata

  /** The outcome of opening and reading a document's content stream. */
  datatype Content =
    | CannotOpen           // getContentStream() raised an IOException
    | CannotRead           // the stream opened, but reading it raised an IOException
    | Text(body: string)   // the stream's whole text

  /** An addition: the document's metadata and content. Neither committer
      reads an addition's own reference; both take it from the metadata. */
  datatype AddDocument = AddDocument(metadata: Properties, content: Content)

  /** `ICommitOperation`: an addition, a deletion by reference, or any other
      implementation of the interface, which the committer rejects. */
  datatype Operation =
    | Add(doc: AddDocument)
    | Delete(reference: string)
    | Unsupported(description: string)

  /** The additions of a batch, in batch order. */
  function AddsIn(batch: seq<Operation>): seq<AddDocument> {
    if |batch| == 0 then []
    else (if batch[0].Add? then [batch[0].doc] else []) + AddsIn(batch[1..])
  }

  /** The references of a batch's deletions, in batch order. */
  function DeletesIn(batch: seq<Operation>): seq<string> {
    if |batch| == 0 then []
    else (if batch[0].Delete? then [batch[0].reference] else []) + DeletesIn(batch[1..])
  }

  /** A batch every operation of which is an addition or a deletion. */
  predicate AllSupported(batch: seq<Operation>) {
    forall i :: 0 <= i < |batch| ==> !batch[i].Unsupported?
  }

  /** The additions and deletions of a supported batch are all its operations:
      none is lost or duplicated, and each comes from the batch. */
  lemma {:induction false} AddsAndDeletesCoverBatch(batch: seq<Operation>)
    requires AllSupported(batch)
    ensures |AddsIn(batch)| + |DeletesIn(batch)| == |batch|
    ensures forall d :: d in AddsIn(batch) <==> Add(d) in batch
    ensures forall r :: r in DeletesIn(batch) <==> Delete(r) in batch
  {
    if |batch| > 0 {
      assert AllSupported(batch[1..]) by {
        forall i | 0 <= i < |batch[1..]|
          ensures !batch[1..][i].Unsupported?
        {
          assert batch[1..][i] == batch[i + 1];
        }
      }
      AddsAndDeletesCoverBatch(batch[1..]);
      assert batch == [batch[0]] + batch[1..];
    }
  }

  /** An HTTP POST: the target URL and the request body. */
  datatype Request = Request(url: string, body: string)

  /** What posting a request yields: the response body, or an I/O failure. */
  datatype Reply = Received(body: string) | IoFailure
}
