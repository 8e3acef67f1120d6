# IDOL committer: a Dafny model of the IDX encoder, the URLs and the response checks

The Norconex IDOL committer sends crawled documents to an Autonomy IDOL
server. It has two variants, and this project models the core of each:

- **`IdolCommitter`** receives a batch of operations and checks that each one
  is an addition or a deletion. It then sends every deletion in one
  `DREDELETEREF` request and every addition in one `DREADDDATA` request, in
  that order. The body of the addition request is IDX text, the server's
  plain-text import format.
- **`IdolServer`** is the older helper. It builds the same IDX text, but:
  - it writes every metadata pair as a field;
  - it takes the reference from the `document.reference` field;
  - it puts a deletion reference into the URL without encoding it;
  - it checks the server's answer over response lines it collects only while
    debug logging is on.

`IdolCommitter` accepts a request only when the server's answer contains
`INDEXID`, and fails the commit on an I/O failure. `IdolServer` as written
swallows an I/O failure, so the post counts as done. With debug logging off it
rejects every answer, a successful one included (see "Findings").

The model is functional. Each Java method becomes a pure function:
- The server is a function from request to reply.
- The committer's settings are an immutable record.
- Java exceptions become `Outcome`/`Result` values.

Every encoder has a partner:
- The IDX text has a reader, `Idx.ParseBatch`, proved to invert the writer on
  every document the format can represent.
- The deletion list has `Split`.
- The port has `ParseInt`.
- The response check is proved equivalent to a plain search of the response
  body.

Modules, in dependency order:

| file | module | contents |
|---|---|---|
| wrappers.dfy | `Wrappers` | `Option`, `Result`, `Outcome` |
| seqs.dfy | `Seqs` | regrouping of concatenations, used by the proofs about text built from many pieces |
| java_lang.dfy | `JavaLang` | the Java and commons-lang string behaviour the code relies on. A `null` appends as `null`. Also covers `startsWithAny`, `contains`, `join`, `trim`, `BufferedReader.readLine` line splitting and `Integer.toString` |
| url_encoding.dfy | `UrlEncoding` | `URLEncoder.encode(s, "UTF-8")`, and where a query value ends: the raw text before the first `&` |
| metadata.dfy | `Metadata` | document metadata as an ordered list of (field, values) entries; `Properties.getString` |
| operations.dfy | `Operations` | additions, deletions, other operations; HTTP requests and replies |
| idx.dfy | `Idx` | the IDX writer, a reader for it, and the round-trip proofs |
| idol_committer.dfy | `IdolCommitter` | `IdolCommitter.java` |
| idol_server.dfy | `IdolServer` | `IdolServer.java` (package `com.norconex.committer.idol`) |

## Model

Source paths are relative to the repository root.

| member | source | states |
|---|---|---|
| IdolCommitter.NewCommitter | norconex-committer-idol/src/main/java/com/norconex/committer/idol/IdolCommitter.java:114-141 | A new committer has no host and no database name, so both are null. It has no DREADDDATA or DREDELETEREF parameters. Its id and content target fields are `DREREFERENCE` and `DRECONTENT`, its ACI port is 9000 and its index port 9001. With no host set it addresses `http://null:9001/`, since a null host renders as `null`. |
| IdolCommitter.DefaultBaseUrl | norconex-committer-idol/src/main/java/com/norconex/committer/idol/IdolCommitter.java:528-536 | With the default index port and the host `x.com`, the base URL is `http://x.com:9001/`: the scheme is added and the port follows a colon. |
| IdolCommitter.AddDreAddDataParam | norconex-committer-idol/src/main/java/com/norconex/committer/idol/IdolCommitter.java:208-218 | After adding, getting that name returns the new value and every other name returns what it did before. The name set gains exactly that name, and no other setting changes. |
| IdolCommitter.AddDreDeleteRefParam | norconex-committer-idol/src/main/java/com/norconex/committer/idol/IdolCommitter.java:224-234 | The same put/get law as above for the DREDELETEREF parameters. |
| IdolCommitter.PartitionFrom | norconex-committer-idol/src/main/java/com/norconex/committer/idol/IdolCommitter.java:257-265 | From any point of the loop, it succeeds exactly when the rest holds only additions and deletions. The lists then grow by the rest's additions and deletions, in order. Otherwise it fails on the first other operation. |
| IdolCommitter.Partition | norconex-committer-idol/src/main/java/com/norconex/committer/idol/IdolCommitter.java:255-265 | The batch splits into its additions and its deletions, each in batch order, exactly when it holds nothing else. Otherwise the error names the first unsupported operation. |
| Operations.AddsAndDeletesCoverBatch | norconex-committer-idol/src/main/java/com/norconex/committer/idol/IdolCommitter.java:257-262 | For a supported batch, the additions and deletions together number the batch's size, and each one is an operation of the batch. |
| IdolCommitter.CommitBatch | norconex-committer-idol/src/main/java/com/norconex/committer/idol/IdolCommitter.java:252-270 | An unsupported operation fails the batch before anything is sent. Otherwise the deletion request goes first. The addition request follows only if the server accepted the deletions, and the last reply decides the outcome. |
| IdolCommitter.CommitSuccessSendsBoth | norconex-committer-idol/src/main/java/com/norconex/committer/idol/IdolCommitter.java:266-267 | A successful commit sent exactly two requests, deletions then additions, and together they cover every operation of the batch. |
| Metadata.GetString | norconex-committer-idol/src/main/java/com/norconex/committer/idol/IdolCommitter.java:344 | `getString` gives the first value stored under the key, or null when the key has no value. |
| Metadata.PairsMembership | norconex-committer-idol/src/main/java/com/norconex/committer/idol/IdolCommitter.java:348-357 | The nested loops visit a (key, value) pair exactly when the value is stored under the key. |
| IdolCommitter.EmittedFieldsExcludeTargets | norconex-committer-idol/src/main/java/com/norconex/committer/idol/IdolCommitter.java:348-359 | The field lines are the metadata pairs minus those of the id and content target fields, in metadata order. |
| IdolCommitter.IdxDocumentFields | norconex-committer-idol/src/main/java/com/norconex/committer/idol/IdolCommitter.java:349-357 | A (key, value) pair gets a `#DREFIELD` line exactly when the value is stored under the key and the key is neither target field. |
| IdolCommitter.IdxDocumentOf | norconex-committer-idol/src/main/java/com/norconex/committer/idol/IdolCommitter.java:343-365 | In a metadata map, the reference is the first id value, or `null` when there is none. The body is the first content value, or `null`. The database line carries the configured name, or `null`. |
| IdolCommitter.BuildIdxDocument | norconex-committer-idol/src/main/java/com/norconex/committer/idol/IdolCommitter.java:339-370 | The block of a representable document reads back as exactly that document, with nothing left over. |
| IdolCommitter.BuildIdxDocumentRoundTrip | norconex-committer-idol/src/main/java/com/norconex/committer/idol/IdolCommitter.java:339-370 | A representable document's block reads back as that document and leaves the following text untouched. |
| IdolCommitter.OpenedAdditions | norconex-committer-idol/src/main/java/com/norconex/committer/idol/IdolCommitter.java:515-523 | The kept additions are additions of the batch whose stream opens, and every such addition is kept. |
| IdolCommitter.OpenedAdditionsExtremes | norconex-committer-idol/src/main/java/com/norconex/committer/idol/IdolCommitter.java:515-523 | When every stream opens, no addition is skipped; when none opens, none is kept. |
| IdolCommitter.OpenedAdditionsAppend | norconex-committer-idol/src/main/java/com/norconex/committer/idol/IdolCommitter.java:515-523 | Filtering is done one addition at a time, in order: the kept additions of two lists are those of the first followed by those of the second, and a single addition is kept exactly when its stream opens. This fixes the order and the number of copies kept. |
| IdolCommitter.IdxDocumentsOf | norconex-committer-idol/src/main/java/com/norconex/committer/idol/IdolCommitter.java:515-523 | When every stream opens, each addition yields its document, in order. When none opens, the batch is empty. |
| IdolCommitter.IdxDocumentsOfAppend | norconex-committer-idol/src/main/java/com/norconex/committer/idol/IdolCommitter.java:515-523 | The documents written for two lists of additions are those of the first followed by those of the second. A single addition gives its own document exactly when its stream opens, and nothing otherwise. |
| IdolCommitter.BatchContentRoundTrip | norconex-committer-idol/src/main/java/com/norconex/committer/idol/IdolCommitter.java:513-526 | Reading back the addition body yields one document per addition whose stream opens, in order, followed by exactly one terminator. Only the documents actually written need to be representable. |
| IdolCommitter.BuildIdxBatchContent | norconex-committer-idol/src/main/java/com/norconex/committer/idol/IdolCommitter.java:513-526 | With no additions the body is the bare `#DREENDDATANOOP` terminator. |
| Idx.ParseBlockRoundTrip | norconex-committer-idol/src/main/java/com/norconex/committer/idol/IdolCommitter.java:343-365 | The IDX reader inverts the block writer on every document whose reference, database, field names and values have no line break, whose field names have no `=`, and whose content has no line starting with `#`, its first line included. |
| Idx.FirstLineMarkerBreaksBlock | norconex-committer-idol/src/main/java/com/norconex/committer/idol/IdolCommitter.java:362-365 | The content is written straight after the `#DRECONTENT` line, so a content whose first line starts with `#` puts a marker line there. The block then reads as no block at all, whatever follows it. |
| Idx.ParseBatchRoundTrip | norconex-committer-idol/src/main/java/com/norconex/committer/idol/IdolCommitter.java:513-526 | The reader inverts the batch writer: a list of representable documents reads back as the same list. |
| UrlEncoding.FormEncode | norconex-committer-idol/src/main/java/com/norconex/committer/idol/IdolCommitter.java:502-503 | URL encoding yields only letters, digits, `.-*_`, `+` and `%`. The output is empty only for empty input and never shorter than it. It holds a `+` exactly when the input holds a space. |
| UrlEncoding.FormEncodeIsQuerySafe | norconex-committer-idol/src/main/java/com/norconex/committer/idol/IdolCommitter.java:502-503 | An encoded reference never holds `&`, `=` or a line break. |
| IdolCommitter.BuildDeleteRefsContent | norconex-committer-idol/src/main/java/com/norconex/committer/idol/IdolCommitter.java:495-511 | The deletion list is empty for no deletions and never holds `&`. |
| JavaLang.SplitJoin | norconex-committer-idol/src/main/java/com/norconex/committer/idol/IdolCommitter.java:498-504 | Splitting a `+`-joined list at `+` gives back the elements, provided no element holds `+`. |
| IdolCommitter.DeleteRefsSplit | norconex-committer-idol/src/main/java/com/norconex/committer/idol/IdolCommitter.java:495-511 | When no reference holds a space, splitting the list at `+` gives back each encoded reference, in order. |
| IdolCommitter.DeleteRefsSpaceAmbiguity | norconex-committer-idol/src/main/java/com/norconex/committer/idol/IdolCommitter.java:498-504 | For any `a` and `b`, the one reference `a b` and the two references `a`, `b` produce the same list. |
| UrlEncoding.FormEncodeAppend | norconex-committer-idol/src/main/java/com/norconex/committer/idol/IdolCommitter.java:502-503 | The encoding of a concatenation is the concatenation of the encodings: each character is encoded on its own. |
| JavaLang.StartsWithAny | norconex-committer-idol/src/main/java/com/norconex/committer/idol/IdolCommitter.java:531 | A null host starts with nothing. A string starts with one of the prefixes exactly when some prefix matches. |
| IdolCommitter.CreateUrl | norconex-committer-idol/src/main/java/com/norconex/committer/idol/IdolCommitter.java:528-536 | The base URL is `http://` (left out when the host starts with `http`), then the host (`null` for none), `:`, the index port in decimal and `/`. So it always starts with `http` and ends with `/`, and it starts with the host itself when the host carries its scheme. |
| IdolCommitter.SchemePrefixRule | norconex-committer-idol/src/main/java/com/norconex/committer/idol/IdolCommitter.java:531 | The `https` alternative is redundant: the scheme is prepended exactly when the host is null or does not start with `http`. |
| IdolCommitter.CreateUrlSchemeIdempotent | norconex-committer-idol/src/main/java/com/norconex/committer/idol/IdolCommitter.java:530-534 | A host without scheme and the same host written with `http://` give the same URL. |
| JavaLang.ParseIntToString | norconex-committer-idol/src/main/java/com/norconex/committer/idol/IdolCommitter.java:534 | Parsing the decimal text of an `int` gives the `int` back. |
| IdolCommitter.CreateUrlPort | norconex-committer-idol/src/main/java/com/norconex/committer/idol/IdolCommitter.java:534 | Whatever the host, the number between the base URL's last `:` and its final `/` is the configured index port. |
| IdolCommitter.ExtraDeleteParams | norconex-committer-idol/src/main/java/com/norconex/committer/idol/IdolCommitter.java:412-415 | The extra parameters are appended unchanged when the rendered query string starts with `&`, and dropped otherwise. |
| IdolCommitter.AddUrl | norconex-committer-idol/src/main/java/com/norconex/committer/idol/IdolCommitter.java:382-389 | The URL handed to the query-string helper is the base URL followed by `DREADDDATA?`. A helper that only appends keeps that prefix. A helper that leaves a URL alone without parameters gives exactly that prefix to a committer without addition parameters. |
| IdolCommitter.DeleteUrl | norconex-committer-idol/src/main/java/com/norconex/committer/idol/IdolCommitter.java:405-415 | The deletion URL starts with the base URL and `DREDELETEREF?Docs=`, and is long enough to hold the deletion list and the `&DREDbName=` parameter after it. |
| IdolCommitter.DeleteUrlParts | norconex-committer-idol/src/main/java/com/norconex/committer/idol/IdolCommitter.java:405-415 | The raw `Docs` text, up to the first `&`, is the whole deletion list. Right after it come `&DREDbName=`, the database name (`null` for none) and the extra deletion parameters. The raw `DREDbName` text is the whole database name when the name holds no `&`. |
| IdolCommitter.SyncUrl | norconex-committer-idol/src/main/java/com/norconex/committer/idol/IdolCommitter.java:424 | The DRESYNC URL is the base URL followed by exactly `DRESYNC`, so it is an `http` URL. |
| JavaLang.Contains | norconex-committer-idol/src/main/java/com/norconex/committer/idol/IdolCommitter.java:480 | `contains` holds exactly when the word occurs at some index. |
| IdolCommitter.Post | norconex-committer-idol/src/main/java/com/norconex/committer/idol/IdolCommitter.java:479-486 | A request succeeds exactly when the server answered and its answer contains `INDEXID`. An answer without it fails with that answer, and an I/O failure fails as "cannot post". |
| IdolCommitter.PostExamples | norconex-committer-idol/src/main/java/com/norconex/committer/idol/IdolCommitter.java:479-483 | A typical `INDEXID=` answer is accepted; `ERROR` is rejected with that text. |
| IdolCommitter.AddRequest | norconex-committer-idol/src/main/java/com/norconex/committer/idol/IdolCommitter.java:389-391 | The addition request goes to the DREADDDATA URL. When the documents written are representable, its body reads back as one document per addition whose stream opens, in order. |
| IdolCommitter.DeleteRequest | norconex-committer-idol/src/main/java/com/norconex/committer/idol/IdolCommitter.java:405-416 | The deletion request has an empty body, and the raw `Docs` text of its URL is the whole `+`-joined list of encoded references. |
| IdolCommitter.SyncRequest | norconex-committer-idol/src/main/java/com/norconex/committer/idol/IdolCommitter.java:424-425 | The synchronisation request has an empty body and goes to the base URL followed by `DRESYNC`. |
| IdolCommitter.Sync | norconex-committer-idol/src/main/java/com/norconex/committer/idol/IdolCommitter.java:423-426 | `sync` sends exactly the DRESYNC request, and its outcome is `post`'s, error included: it succeeds exactly when the server answers with `INDEXID`. |
| IdolServer.ScanValues | norconex-committer-idol/src/main/java/com/norconex/committer/idol/IdolServer.java:193-198 | Over one entry, the inner loop ends holding the entry's last value if the key is `document.reference`. Otherwise it keeps what it held. |
| IdolServer.ScanReference | norconex-committer-idol/src/main/java/com/norconex/committer/idol/IdolServer.java:192-199 | The outer loop ends holding the last `document.reference` value over all entries, or what it started with if there is none. |
| IdolServer.GetDreReference | norconex-committer-idol/src/main/java/com/norconex/committer/idol/IdolServer.java:189-202 | The reference is the last value stored under `document.reference`, or the empty string. |
| IdolServer.DreReferenceOfMap | norconex-committer-idol/src/main/java/com/norconex/committer/idol/IdolServer.java:189-202 | In a map (unique keys), the reference is the last value of the `document.reference` entry. It is empty when that entry is missing or has no values. |
| IdolServer.IdolDocumentOf | norconex-committer-idol/src/main/java/com/norconex/committer/idol/IdolServer.java:211-232 | The document written for a queued addition has the last `document.reference` value as reference (empty when there is none) and the database name (`null` for none). Its content is the stream's text when the stream can be read, and empty otherwise. |
| IdolServer.IdolDocumentFields | norconex-committer-idol/src/main/java/com/norconex/committer/idol/IdolServer.java:221-229 | Nothing is excluded: every stored (key, value) pair gets a field line, the reference field included. |
| IdolServer.IdolDocumentTextAsWritten | norconex-committer-idol/src/main/java/com/norconex/committer/idol/IdolServer.java:211-241 | A document whose stream cannot be opened adds nothing. One whose stream fails mid-read adds its block minus exactly the `#DREENDDOC` end marker, as for an empty content. One whose stream reads adds its whole block. |
| IdolServer.BlocksTextAsWritten | norconex-committer-idol/src/main/java/com/norconex/committer/idol/IdolServer.java:173-179 | When no content stream fails mid-read, the documents' texts are the IDX blocks of the readable documents, in order. |
| IdolServer.BuildIdolDocumentsBatchAsWritten | norconex-committer-idol/src/main/java/com/norconex/committer/idol/IdolServer.java:170-183 | When no content stream fails mid-read, the batch as written is the IDX batch of the documents whose streams open, in order. |
| IdolServer.ReadableDocumentsAppend | norconex-committer-idol/src/main/java/com/norconex/committer/idol/IdolServer.java:173-179 | The readable documents of two lists are those of the first followed by those of the second; a single addition contributes its document exactly when its content is text. |
| Idx.ParseBlockTruncated | norconex-committer-idol/src/main/java/com/norconex/committer/idol/IdolServer.java:230-237 | A block cut off after `#DRECONTENT` and followed by another marker does not read as a block. |
| IdolServer.UnreadableBreaksBatch | norconex-committer-idol/src/main/java/com/norconex/committer/idol/IdolServer.java:233-237 | One document whose content fails mid-read makes the whole batch unreadable as IDX. |
| IdolServer.DeleteRequestAsWritten | norconex-committer-idol/src/main/java/com/norconex/committer/idol/IdolServer.java:73-78 | The reference is the body and goes into the URL unencoded. The raw `Docs` text is the reference up to its first `&`, so it is the whole reference exactly when the reference holds no `&`. |
| IdolServer.DocsEntriesAsWritten | norconex-committer-idol/src/main/java/com/norconex/committer/idol/IdolServer.java:74-75 | Split at `+`, the deletion-list separator, the raw `Docs` text is the one reference sent exactly when that reference holds neither `&` nor `+`. So `a+b` is read as two references, not only `a&b` as a cut one. |
| IdolServer.DeleteRequest | norconex-committer-idol/src/main/java/com/norconex/committer/idol/IdolServer.java:74-77 | With the reference encoded, the raw `Docs` text is the whole encoded reference, whatever the reference holds; the body is still the reference. A space still encodes to `+`, the deletion-list separator (`IdolServer.DocsEntriesCorrected`). |
| IdolServer.DocsEntriesCorrected | norconex-committer-idol/src/main/java/com/norconex/committer/idol/IdolServer.java:74-75 | With the reference encoded, splitting the raw `Docs` text at `+` gives the one encoded reference exactly when the reference holds no space: a space still encodes to `+`. |
| IdolServer.BuildIdolDocumentsBatch | norconex-committer-idol/src/main/java/com/norconex/committer/idol/IdolServer.java:170-183 | The corrected batch reads back as the documents whose content can be read, in order. Wherever no content fails mid-read it equals the batch as written. |
| IdolServer.AddRequestAsWritten | norconex-committer-idol/src/main/java/com/norconex/committer/idol/IdolServer.java:57-62 | `add` as written posts to the URL followed by `DREADDDATA?`. When no content fails mid-read and the readable documents are representable, the body reads back as them. When one does fail and every document started is representable, the body is no IDX batch at all. |
| IdolServer.AddRequest | norconex-committer-idol/src/main/java/com/norconex/committer/idol/IdolServer.java:57-62 | With the corrected batch, the body reads back as the readable documents whatever fails, when those documents are representable. |
| IdolServer.SyncRequest | norconex-committer-idol/src/main/java/com/norconex/committer/idol/IdolServer.java:85-88 | `sync` posts an empty body to the URL followed by exactly `DRESYNC`. |
| JavaLang.Trim | norconex-committer-idol/src/main/java/com/norconex/committer/idol/IdolServer.java:151 | A trimmed line is non-empty exactly when the line holds a character above U+0020. |
| IdolServer.NonBlankLines | norconex-committer-idol/src/main/java/com/norconex/committer/idol/IdolServer.java:150-157 | The collected lines are lines of the response, in order, each non-blank after `trim()`, and every non-blank line is collected. |
| IdolServer.NonBlankLinesAppend | norconex-committer-idol/src/main/java/com/norconex/committer/idol/IdolServer.java:150-157 | Lines are kept one at a time, in order: filtering two runs of lines gives the kept lines of the first followed by those of the second, and a single line is kept exactly when it is not blank. |
| IdolServer.CollectedLinesAsWritten | norconex-committer-idol/src/main/java/com/norconex/committer/idol/IdolServer.java:150-157 | With debug logging off, no line is collected. With it on, exactly the non-blank lines of the answer are collected, and `INDEXID` occurs in one of them exactly when the answer holds it. |
| JavaLang.ContainsLines | norconex-committer-idol/src/main/java/com/norconex/committer/idol/IdolServer.java:150 | A word with no line terminator occurs in a text exactly when it occurs in one of the lines `readLine` returns. |
| JavaLang.ContainsJoin | norconex-committer-idol/src/main/java/com/norconex/committer/idol/IdolServer.java:161 | A word without the separator's characters occurs in the joined text exactly when it occurs in some element. |
| IdolServer.CheckResponseAsWritten | norconex-committer-idol/src/main/java/com/norconex/committer/idol/IdolServer.java:150-167 | An I/O failure is swallowed and the post counts as done. A rejected answer reports the collected lines joined by spaces. With debug logging off, every answer is rejected, a successful one included, with an empty response. With it on, an answer passes exactly when its body contains `INDEXID`. |
| IdolServer.IndexIdSurvivesLineJoin | norconex-committer-idol/src/main/java/com/norconex/committer/idol/IdolServer.java:150-162 | Splitting into lines, dropping blank lines and joining with spaces keeps `INDEXID` exactly when the body holds it. |
| IdolServer.CheckResponse | norconex-committer-idol/src/main/java/com/norconex/committer/idol/IdolServer.java:161-164 | With every line collected, an answer is accepted exactly when its body contains `INDEXID`, and an I/O failure is swallowed. |
| IdolServer.DebugOnMatchesCorrected | norconex-committer-idol/src/main/java/com/norconex/committer/idol/IdolServer.java:150-164 | With debug logging on, the original check and the corrected one agree on every reply. |
| IdolServer.AddAsWritten | norconex-committer-idol/src/main/java/com/norconex/committer/idol/IdolServer.java:57-64 | `add` as written posts the batch as written once, and its outcome is the response check as written. It succeeds exactly when the post fails with an I/O error, or debug logging is on and the answer contains `INDEXID`. |
| IdolServer.DeleteAsWritten | norconex-committer-idol/src/main/java/com/norconex/committer/idol/IdolServer.java:73-78 | `delete` as written posts once, with the reference unencoded in the URL and as the body. It succeeds exactly when the post fails with an I/O error, or debug logging is on and the answer contains `INDEXID`. |
| IdolServer.SyncAsWritten | norconex-committer-idol/src/main/java/com/norconex/committer/idol/IdolServer.java:85-89 | `sync` as written posts an empty body once to `DRESYNC`. It succeeds exactly when the post fails with an I/O error, or debug logging is on and the answer contains `INDEXID`. |
| IdolServer.Add | norconex-committer-idol/src/main/java/com/norconex/committer/idol/IdolServer.java:57-64 | `add` with the corrections: it posts the corrected batch once to `DREADDDATA?`. It fails exactly when an answer arrives without `INDEXID`; an I/O failure is still swallowed, as in the source. |
| IdolServer.Delete | norconex-committer-idol/src/main/java/com/norconex/committer/idol/IdolServer.java:73-78 | `delete` with the corrections: it posts once to `DREDELETEREF` with the reference encoded in the URL and as the body. It fails exactly when an answer arrives without `INDEXID`; an I/O failure is still swallowed, as in the source. |
| IdolServer.Sync | norconex-committer-idol/src/main/java/com/norconex/committer/idol/IdolServer.java:85-89 | `sync` with the corrected response check: it posts an empty body once to `DRESYNC`. It fails exactly when an answer arrives without `INDEXID`; an I/O failure is still swallowed, as in the source. |

## Left out

- HTTP transport is a parameter `server: Request -> Reply`. This covers the request headers, writing the body, the response code, reading the answer, and closing or disconnecting. The only failure modelled is an I/O failure. It stands for an `IOException` raised after the connection was opened.
- A failure to open the connection is not modelled. Both classes catch a `MalformedURLException` or an `IOException` while opening it and return a null connection (`IdolCommitter.java:449-455`, `IdolServer.java:114-121`). The `NullPointerException` that follows in `post` is no `IOException`, so it escapes both classes: it is neither "cannot post" nor a swallowed failure.
- Request bodies are strings. `DataOutputStream.writeBytes` keeps only the low byte of each character, so bytes are not modelled.
- `com.norconex.commons.lang.url.QueryString` is not part of this model. Its `toString` and `applyOnURL` are function parameters, so `IdolCommitter.AddUrl` states only what holds for helpers that append, or that leave a URL without parameters alone.
- XML configuration (`loadFromXml`, `saveToXML`) is left out. This includes the `writeAttribute(key, key)` call, which writes the parameter name as the attribute name.
- Plain getters and setters for host, ports and database name are record fields and record updates. The ACI port is stored but no modelled operation uses it.
- `AbstractMappedCommitter` is not part of this model: queueing, batching, and the mapping of source fields to the id and content target fields. The two target fields are configuration values.
- The `IOException` branch of `buildDeleteRefsContent` is left out, because the UTF-8 encoding is always supported.
- `Properties` is not part of this model:
  - The metadata map's iteration order is a given sequence of entries.
  - `getString` is taken to return the first value of a key, or null.
- A null `url` or reference passed to `IdolServer` is not modelled. A null host or database name is: it renders as `null`.
- `Character.isWhitespace` follows the Java definition for the whole Basic Multilingual Plane. No other Unicode case or normalisation rules are involved.
- Logging is left out, except the debug-level check that gates response collection, which is the `debug` flag.
- `IdolHttpServer`, the `IIdolServerFactory`/`DefaultIdolServerFactory` factories, `IIdolIndexAction`, the abstract `server/IdolServer` and the test class are outside the modelled core.
- Idx.ParseBatchRoundTrip: holds only for documents the IDX text can carry unambiguously. Names and values must have no line break, names no `=`, and content no line starting with `#`, the first line included. Other documents are sent as the source sends them, but their text does not read back as them. `Idx.FirstLineMarkerBreaksBlock` shows this for a first content line starting with `#`.
- IdolCommitter.BatchContentRoundTrip: stated for representable documents only, as above.
- IdolCommitter.AddRequest: its round trip is stated for representable documents only, as above.
- IdolCommitter.BuildIdxDocument: its round trip is stated for a representable document only, as above.
- IdolServer.BuildIdolDocumentsBatch: its round trip is stated for representable documents only, as above.
- IdolServer.AddRequest: its round trip is stated for representable documents only, as above.
- IdolServer.AddRequestAsWritten: both of its read-back clauses are stated for representable documents only, as above.
- IdolServer.UnreadableBreaksBatch: stated only when every document whose stream opens is representable. A field value holding a line break could make the cut text read as something else.
- UrlEncoding.QueryValue: a query value is the raw text before the first `&`. A server's `%XX` and `+` decoding of that text is not modelled, nor `java.net.URL` ending the query at `#`. So the raw `Docs` text of `IdolServer.DeleteRequestAsWritten` can still differ from what a server decodes when the reference holds `%`, `+` or `#`.
- Strings are sequences of Unicode scalar values. A Java string holding an unpaired surrogate cannot be represented, so `URLEncoder` writing it as `%3F` is not modelled.
- IdolCommitter.DeleteRefsSplit: stated only for references without a space. A space encodes to `+`, the separator itself; `IdolCommitter.DeleteRefsSpaceAmbiguity` shows the clash.

## Findings

Each of three defects in `IdolServer.java` is modelled twice:
- The `AsWritten` members reproduce the code. The lemma or contract named in the as-written cell exhibits the defect.
- The corrected member carries the intended property in its contract.
- `IdolServer.AddAsWritten`, `IdolServer.DeleteAsWritten` and `IdolServer.SyncAsWritten` model the three operations as written, with debug logging as a parameter.
- `IdolServer.Add`, `IdolServer.Delete` and `IdolServer.Sync` are the same operations built from the corrected members.

| source | as written | input that shows it | evidently intended | confidence | as-written member | corrected member |
|---|---|---|---|---|---|---|
| norconex-committer-idol/src/main/java/com/norconex/committer/idol/IdolServer.java:152-155 | response lines are added to the list only inside `if (LOG.isDebugEnabled())`, so with debug off the joined response is empty and never contains `INDEXID` | debug off and the answer `INDEXID=1`: rejected with an empty response (the contract of `IdolServer.CheckResponseAsWritten`) | every non-blank line collected, accepted exactly when the answer contains `INDEXID` | high; not executed | IdolServer.CheckResponseAsWritten | IdolServer.CheckResponse |
| norconex-committer-idol/src/main/java/com/norconex/committer/idol/IdolServer.java:74-75 | the deletion reference is concatenated into the query string without URL encoding | the reference `a&b`: the raw `Docs` text is `a` (the contract of `IdolServer.DeleteRequestAsWritten`); the reference `a+b`: split at `+`, it is two references (`IdolServer.DocsEntriesAsWritten`) | the reference URL-encoded, as `IdolCommitter` does, so the raw `Docs` text is the whole encoded reference | medium; not executed | IdolServer.DeleteRequestAsWritten | IdolServer.DeleteRequest |
| norconex-committer-idol/src/main/java/com/norconex/committer/idol/IdolServer.java:233-237 | an `IOException` while reading the content is caught inside `buildIdolDocument`, and the block written so far, without `#DREENDDOC`, still goes into the batch | a document whose content stream opens but fails while being read: the batch no longer reads as IDX (`IdolServer.UnreadableBreaksBatch`) | the document left out, as when its stream cannot be opened, so the batch reads back as the readable documents | medium; not executed | IdolServer.UnreadableBreaksBatch | IdolServer.BuildIdolDocumentsBatch |
