/** `IdolCommitter`: the committer that sends a batch of operations to the
    IDOL index port. Deletions go out first as one DREDELETEREF request that
    names every reference, then additions as one DREADDDATA request whose body
    is an IDX batch. A request succeeds only when the server's answer mentions
    `INDEXID`. */
module IdolCommitter {
  import opened Wrappers
  import opened JavaLang
  import opened Seqs
  import opened UrlEncoding
  import opened Metadata
  import opened Operations
  import Idx

  const DefaultIdolReferenceField: string := "DREREFERENCE"
  const DefaultIdolContentField: string := "DRECONTENT"
  const DefaultAciPort: Int32 := 9000
  const DefaultIndexPort: Int32 := 9001

  /** The committer's settings. `host` and `databaseName` have no default and
      are null until set; the two parameter maps start empty. */
  datatype Config = Config(
    host: Option<string>,
    aciPort: Int32,
    indexPort: Int32,
    databaseName: Option<string>,
    dreAddDataParams: map<string, string>,
    dreDeleteRefParams: map<string, string>,
    idTargetField: string,
    contentTargetField: string)

  /** The URL helper `com.norconex.commons.lang.url.QueryString`, filled with a
      parameter map in the map's iteration order: `render` is its `toString()`
      and `applyOnUrl` its `applyOnURL(url)`. */
  datatype QueryStrings = QueryStrings(
    render: map<string, string> -> string,
    applyOnUrl: (map<string, string>, string) -> string)

  /** Why a commit fails: `CommitterException` with the unsupported operation,
      the unexpected response, or the I/O failure. */
  datatype CommitterError =
    | UnsupportedOperation(operation: Operation)
    | UnexpectedResponse(response: string)
    | CannotPost

  /** The committer as constructed: the IDOL default target fields and ports. */
  function NewCommitter(): (c: Config)
    ensures forall n :: GetDreAddDataParam(c, n).None? && GetDreDeleteRefParam(c, n).None?
    ensures c.idTargetField == "DREREFERENCE" && c.contentTargetField == "DRECONTENT"
    ensures c.aciPort == 9000 && c.indexPort == 9001
    ensures c.host.None? && c.databaseName.None?
    ensures CreateUrl(c) == "http://null:9001/"
  {
    DefaultIndexPortText();
    Config(None, DefaultAciPort, DefaultIndexPort, None, map[], map[],
           DefaultIdolReferenceField, DefaultIdolContentField)
  }

  // --------------------------------------------------------------- parameters

  /** `getDreAddDataParam(name)`: null when no such parameter. */
  function GetDreAddDataParam(c: Config, name: string): Option<string> {
    if name in c.dreAddDataParams then Some(c.dreAddDataParams[name]) else None
  }

  /** `addDreAddDataParam(name, value)`: sets or replaces one parameter. */
  function AddDreAddDataParam(c: Config, name: string, value: string): (c': Config)
    ensures GetDreAddDataParam(c', name) == Some(value)
    ensures forall n :: n != name ==> GetDreAddDataParam(c', n) == GetDreAddDataParam(c, n)
    ensures c'.dreAddDataParams.Keys == c.dreAddDataParams.Keys + {name}
    ensures c'.(dreAddDataParams := c.dreAddDataParams) == c
  {
    c.(dreAddDataParams := c.dreAddDataParams[name := value])
  }

  /** `getDreDeleteRefParam(name)`: null when no such parameter. */
  function GetDreDeleteRefParam(c: Config, name: string): Option<string> {
    if name in c.dreDeleteRefParams then Some(c.dreDeleteRefParams[name]) else None
  }

  /** `addDreDeleteRefParam(name, value)`: sets or replaces one parameter. */
  function AddDreDeleteRefParam(c: Config, name: string, value: string): (c': Config)
    ensures GetDreDeleteRefParam(c', name) == Some(value)
    ensures forall n :: n != name ==> GetDreDeleteRefParam(c', n) == GetDreDeleteRefParam(c, n)
    ensures c'.dreDeleteRefParams.Keys == c.dreDeleteRefParams.Keys + {name}
    ensures c'.(dreDeleteRefParams := c.dreDeleteRefParams) == c
  {
    c.(dreDeleteRefParams := c.dreDeleteRefParams[name := value])
  }

  // ------------------------------------------------------------- partitioning

  /** A batch split by kind: the additions, and the deletions' references. */
  datatype Parts = Parts(additions: seq<AddDocument>, deletions: seq<string>)

  /** The loop of `commitBatch` from operation `i` on, with the lists built so
      far; the first unsupported operation stops it. */
  function PartitionFrom(batch: seq<Operation>, i: nat, adds: seq<AddDocument>, dels: seq<string>): (r: Result<Parts, Operation>)
    requires i <= |batch|
    ensures r.Success? <==> AllSupported(batch[i..])
    ensures r.Success? ==> r.value == Parts(adds + AddsIn(batch[i..]), dels + DeletesIn(batch[i..]))
    ensures r.Failure? ==> exists j :: i <= j < |batch| && batch[j] == r.error && r.error.Unsupported?
                                       && AllSupported(batch[i..j])
    decreases |batch| - i
  {
    if i == |batch| then Success(Parts(adds, dels))
    else
      PartitionStep(batch, i);
      match batch[i]
      case Add(d) =>
        assert adds + [d] + AddsIn(batch[i + 1..]) == adds + ([d] + AddsIn(batch[i + 1..]));
        PartitionFrom(batch, i + 1, adds + [d], dels)
      case Delete(ref) =>
        assert dels + [ref] + DeletesIn(batch[i + 1..]) == dels + ([ref] + DeletesIn(batch[i + 1..]));
        PartitionFrom(batch, i + 1, adds, dels + [ref])
      case Unsupported(_) =>
        assert batch[i..i] == [];
        Failure(batch[i])
  }

  /** One operation of the loop: how the rest of the batch from `i` relates to
      the rest from `i + 1`. */
  lemma PartitionStep(batch: seq<Operation>, i: nat)
    requires i < |batch|
    ensures AllSupported(batch[i..]) <==> !batch[i].Unsupported? && AllSupported(batch[i + 1..])
    ensures AddsIn(batch[i..]) == (if batch[i].Add? then [batch[i].doc] else []) + AddsIn(batch[i + 1..])
    ensures DeletesIn(batch[i..]) == (if batch[i].Delete? then [batch[i].reference] else []) + DeletesIn(batch[i + 1..])
    ensures forall j :: i < j <= |batch| ==>
      (AllSupported(batch[i..j]) <==> !batch[i].Unsupported? && AllSupported(batch[i + 1..j]))
  {
    assert batch[i..][0] == batch[i] && batch[i..][1..] == batch[i + 1..];
    forall j | i < j <= |batch|
      ensures AllSupported(batch[i..j]) <==> !batch[i].Unsupported? && AllSupported(batch[i + 1..j])
    {
      assert batch[i..j][0] == batch[i];
      assert forall m :: 1 <= m < j - i ==> batch[i..j][m] == batch[i + 1..j][m - 1];
    }
    assert forall m :: 1 <= m < |batch| - i ==> batch[i..][m] == batch[i + 1..][m - 1];
  }

  /** `commitBatch`'s split of a batch into additions and deletions, each in
      batch order; any other kind of operation is rejected, and the error names
      the first such operation. */
  function Partition(batch: seq<Operation>): (r: Result<Parts, Operation>)
    ensures r.Success? <==> AllSupported(batch)
    ensures r.Success? ==> r.value.additions == AddsIn(batch) && r.value.deletions == DeletesIn(batch)
    ensures r.Failure? ==> exists j :: 0 <= j < |batch| && batch[j] == r.error && r.error.Unsupported?
                                       && AllSupported(batch[..j])
  {
    assert batch[0..] == batch;
    assert forall j :: 0 <= j <= |batch| ==> batch[0..j] == batch[..j];
    PartitionFrom(batch, 0, [], [])
  }

  // ---------------------------------------------------------------- IDX body

  /** The metadata pairs `buildIdxDocument` writes as `#DREFIELD` lines: entry
      by entry and value by value, skipping the id and content target fields. */
  function EmittedFields(p: Properties, idField: string, contentField: string): (fs: seq<Pair>)
    ensures forall i :: 0 <= i < |fs| ==> fs[i].key != idField && fs[i].key != contentField
  {
    if |p| == 0 then []
    else
      var head := if p[0].key == idField || p[0].key == contentField then [] else EntryPairs(p[0]);
      var tail := EmittedFields(p[1..], idField, contentField);
      assert forall i :: |head| <= i < |head + tail| ==> (head + tail)[i] == tail[i - |head|];
      head + tail
  }

  /** The emitted fields are exactly the metadata pairs minus the two target
      fields, in the same order. */
  lemma {:induction false} EmittedFieldsExcludeTargets(p: Properties, idField: string, contentField: string)
    ensures EmittedFields(p, idField, contentField) == Without(Pairs(p), {idField, contentField})
  {
    if |p| > 0 {
      var excluded := {idField, contentField};
      EmittedFieldsExcludeTargets(p[1..], idField, contentField);
      WithoutAppend(EntryPairs(p[0]), Pairs(p[1..]), excluded);
      WithoutOneKey(EntryPairs(p[0]), p[0].key, excluded);
    }
  }

  lemma {:induction false} WithoutOneKey(ps: seq<Pair>, k: string, excluded: set<string>)
    requires forall i :: 0 <= i < |ps| ==> ps[i].key == k
    ensures Without(ps, excluded) == if k in excluded then [] else ps
  {
    if |ps| > 0 {
      WithoutOneKey(ps[1..], k, excluded);
      assert ps == [ps[0]] + ps[1..];
    }
  }

  /** What `buildIdxDocument` writes for one document's metadata: the first
      value of the id target field as reference, the remaining fields, the
      database name and the first value of the content target field as body.
      A missing value is written as `null`. */
  function IdxDocumentOf(c: Config, p: Properties): (d: Idx.Document)
    ensures UniqueKeys(p) ==>
      && (|ValuesOf(p, c.idTargetField)| > 0 ==> d.reference == ValuesOf(p, c.idTargetField)[0])
      && (|ValuesOf(p, c.idTargetField)| == 0 ==> d.reference == "null")
      && (|ValuesOf(p, c.contentTargetField)| > 0 ==> d.content == ValuesOf(p, c.contentTargetField)[0])
      && (|ValuesOf(p, c.contentTargetField)| == 0 ==> d.content == "null")
    ensures d.dbName == Str(c.databaseName)
  {
    Idx.Document(
      Str(GetString(p, c.idTargetField)),
      EmittedFields(p, c.idTargetField, c.contentTargetField),
      Str(c.databaseName),
      Str(GetString(p, c.contentTargetField)))
  }

  /** `buildIdxDocument`: the IDX block of one document, which reads back as
      that document when the document is representable. */
  function BuildIdxDocument(c: Config, p: Properties): (s: string)
    ensures Idx.Decodable(IdxDocumentOf(c, p)) ==> Idx.ParseBlock(s) == Some((IdxDocumentOf(c, p), ""))
  {
    var block := Idx.Block(IdxDocumentOf(c, p));
    assert block + "" == block;
    if Idx.Decodable(IdxDocumentOf(c, p)) then Idx.ParseBlockRoundTrip(IdxDocumentOf(c, p), ""); block else block
  }

  /** The additions whose content stream opens, in order; the others are
      logged and skipped. */
  function OpenedAdditions(adds: seq<AddDocument>): (os: seq<AddDocument>)
    ensures |os| <= |adds|
    ensures forall i :: 0 <= i < |os| ==> os[i] in adds && !os[i].content.CannotOpen?
    ensures forall x :: x in adds && !x.content.CannotOpen? ==> x in os
  {
    if |adds| == 0 then []
    else
      var tail := OpenedAdditions(adds[1..]);
      assert forall x :: x in adds ==> x == adds[0] || x in adds[1..];
      if adds[0].content.CannotOpen? then tail
      else [adds[0]] + tail
  }

  /** When every stream opens, nothing is skipped; when none opens, nothing is
      kept. */
  lemma {:induction false} OpenedAdditionsExtremes(adds: seq<AddDocument>)
    ensures (forall j :: 0 <= j < |adds| ==> !adds[j].content.CannotOpen?) ==> OpenedAdditions(adds) == adds
    ensures (forall j :: 0 <= j < |adds| ==> adds[j].content.CannotOpen?) ==> OpenedAdditions(adds) == []
  {
    if |adds| > 0 {
      OpenedAdditionsExtremes(adds[1..]);
      assert forall j :: 1 <= j < |adds| ==> adds[1..][j - 1] == adds[j];
      assert adds == [adds[0]] + adds[1..];
    }
  }

  /** Filtering two lists of additions is filtering each, in order; a single
      addition is kept exactly when its stream opens. */
  lemma {:induction false} OpenedAdditionsAppend(a: seq<AddDocument>, b: seq<AddDocument>)
    ensures OpenedAdditions(a + b) == OpenedAdditions(a) + OpenedAdditions(b)
    ensures |a| == 1 ==> OpenedAdditions(a) == if a[0].content.CannotOpen? then [] else [a[0]]
  {
    if |a| == 0 {
      assert a + b == b;
    } else {
      assert (a + b)[0] == a[0] && (a + b)[1..] == a[1..] + b;
      OpenedAdditionsAppend(a[1..], b);
      var head := if a[0].content.CannotOpen? then [] else [a[0]];
      Regroup3(head, OpenedAdditions(a[1..]), OpenedAdditions(b));
      if |a| == 1 {
        assert a[1..] == [];
        assert head + [] == head;
      }
    }
  }

  /** The documents `buildIdxBatchContent` writes: one per addition whose
      content stream opens, in order. */
  function IdxDocumentsOf(c: Config, adds: seq<AddDocument>): (ds: seq<Idx.Document>)
    ensures |ds| <= |adds|
    ensures (forall j :: 0 <= j < |adds| ==> !adds[j].content.CannotOpen?) ==>
      |ds| == |adds| && forall i :: 0 <= i < |ds| ==> ds[i] == IdxDocumentOf(c, adds[i].metadata)
    ensures (forall j :: 0 <= j < |adds| ==> adds[j].content.CannotOpen?) ==> ds == []
  {
    OpenedAdditionsExtremes(adds);
    DocumentsOf(c, OpenedAdditions(adds))
  }

  /** The documents of two lists of additions are those of the first, then
      those of the second; a single addition gives its document exactly when
      its stream opens. */
  lemma IdxDocumentsOfAppend(c: Config, a: seq<AddDocument>, b: seq<AddDocument>)
    ensures IdxDocumentsOf(c, a + b) == IdxDocumentsOf(c, a) + IdxDocumentsOf(c, b)
    ensures |a| == 1 ==> IdxDocumentsOf(c, a) == if a[0].content.CannotOpen? then [] else [IdxDocumentOf(c, a[0].metadata)]
  {
    OpenedAdditionsAppend(a, b);
    DocumentsOfAppend(c, OpenedAdditions(a), OpenedAdditions(b));
  }

  /** The IDX documents of the given additions, one each, in order. */
  function DocumentsOf(c: Config, os: seq<AddDocument>): (ds: seq<Idx.Document>)
    ensures |ds| == |os|
    ensures forall i :: 0 <= i < |ds| ==> ds[i] == IdxDocumentOf(c, os[i].metadata)
  {
    seq(|os|, i requires 0 <= i < |os| => IdxDocumentOf(c, os[i].metadata))
  }

  lemma DocumentsOfAppend(c: Config, x: seq<AddDocument>, y: seq<AddDocument>)
    ensures DocumentsOf(c, x + y) == DocumentsOf(c, x) + DocumentsOf(c, y)
  {
    var whole := DocumentsOf(c, x + y);
    var p := DocumentsOf(c, x);
    var q := DocumentsOf(c, y);
    forall i | 0 <= i < |p|
      ensures whole[i] == p[i]
    {
      assert (x + y)[i] == x[i];
    }
    assert |p| == |x| && |whole| == |x| + |y|;
    forall i | |p| <= i < |whole|
      ensures whole[i] == q[i - |p|]
    {
      var j := i - |x|;
      assert (x + y)[i] == y[j];
      assert whole[i] == IdxDocumentOf(c, y[j].metadata);
      assert q[j] == IdxDocumentOf(c, y[j].metadata);
    }
    PointwiseAppend(whole, p, q);
  }

  /** `buildIdxBatchContent`: the blocks of the documents, then the terminator. */
  function BuildIdxBatchContent(c: Config, adds: seq<AddDocument>): (s: string)
    ensures |adds| == 0 ==> s == "\n#DREENDDATANOOP\n\n"
  {
    Idx.Batch(IdxDocumentsOf(c, adds))
  }

  /** Each (key, value) pair of the metadata gets its own field line exactly
      when the key is neither target field. */
  lemma IdxDocumentFields(c: Config, p: Properties, k: string, v: string)
    ensures Pair(k, v) in IdxDocumentOf(c, p).fields <==>
      (k != c.idTargetField && k != c.contentTargetField
       && exists i :: 0 <= i < |p| && p[i].key == k && v in p[i].values)
  {
    EmittedFieldsExcludeTargets(p, c.idTargetField, c.contentTargetField);
    PairsMembership(p, k, v);
  }

  /** The block of a representable document reads back as that document,
      leaving whatever follows it. */
  lemma BuildIdxDocumentRoundTrip(c: Config, p: Properties, rest: string)
    requires Idx.Decodable(IdxDocumentOf(c, p))
    ensures Idx.ParseBlock(BuildIdxDocument(c, p) + rest) == Some((IdxDocumentOf(c, p), rest))
  {
    Idx.ParseBlockRoundTrip(IdxDocumentOf(c, p), rest);
  }

  /** Reading back the body of an addition request yields one document per
      addition whose stream opens, in order, each with the reference, fields,
      database and content `buildIdxDocument` took from its metadata; the
      terminator appears once, after them. */
  lemma BatchContentRoundTrip(c: Config, adds: seq<AddDocument>)
    requires forall i :: 0 <= i < |adds| && !adds[i].content.CannotOpen? ==>
      Idx.Decodable(IdxDocumentOf(c, adds[i].metadata))
    ensures Idx.ParseBatch(BuildIdxBatchContent(c, adds)) == Some(IdxDocumentsOf(c, adds))
  {
    IdxDocumentsDecodable(c, adds);
    Idx.ParseBatchRoundTrip(IdxDocumentsOf(c, adds));
  }

  lemma IdxDocumentsDecodable(c: Config, adds: seq<AddDocument>)
    requires forall i :: 0 <= i < |adds| && !adds[i].content.CannotOpen? ==>
      Idx.Decodable(IdxDocumentOf(c, adds[i].metadata))
    ensures Idx.AllDecodable(IdxDocumentsOf(c, adds))
  {
    var os := OpenedAdditions(adds);
    var ds := IdxDocumentsOf(c, adds);
    forall i | 0 <= i < |ds|
      ensures Idx.Decodable(ds[i])
    {
      var j :| 0 <= j < |adds| && adds[j] == os[i];
    }
  }

  // ---------------------------------------------------------- deletion list

  function EncodedRefs(refs: seq<string>): (es: seq<string>)
    ensures |es| == |refs|
    ensures forall i :: 0 <= i < |es| ==> es[i] == FormEncode(refs[i])
  {
    seq(|refs|, i requires 0 <= i < |refs| => FormEncode(refs[i]))
  }

  /** `buildDeleteRefsContent`: the URL-encoded references joined with `+`. */
  function BuildDeleteRefsContent(refs: seq<string>): (r: string)
    ensures |refs| == 0 ==> r == ""
    ensures '&' !in r
  {
    var es := EncodedRefs(refs);
    JoinIsQuerySafe(es);
    Join(es, "+")
  }

  lemma {:induction false} JoinIsQuerySafe(es: seq<string>)
    requires forall i :: 0 <= i < |es| ==> '&' !in es[i]
    ensures '&' !in Join(es, "+")
  {
    if |es| > 1 {
      JoinIsQuerySafe(es[1..]);
    }
  }

  /** Splitting the deletion list at `+` gives back the encoded references, as
      long as no reference holds a space (the only character the encoder turns
      into `+`). */
  lemma DeleteRefsSplit(refs: seq<string>)
    requires |refs| > 0
    requires forall i :: 0 <= i < |refs| ==> ' ' !in refs[i]
    ensures Split(BuildDeleteRefsContent(refs), '+') == EncodedRefs(refs)
  {
    SplitJoin(EncodedRefs(refs), '+');
  }

  /** A space in a reference becomes `+`, so the list cannot tell the one
      reference `a b` from the two references `a` and `b`, whatever `a` and
      `b` are. */
  lemma DeleteRefsSpaceAmbiguity(a: string, b: string)
    ensures BuildDeleteRefsContent([a + " " + b]) == BuildDeleteRefsContent([a, b])
  {
    assert FormEncode(" ") == "+" by {
      assert " "[1..] == "";
    }
    FormEncodeAppend(a, " ");
    FormEncodeAppend(a + " ", b);
    assert EncodedRefs([a + " " + b]) == [FormEncode(a + " " + b)];
    assert EncodedRefs([a, b]) == [FormEncode(a), FormEncode(b)];
    assert Join([FormEncode(b)], "+") == FormEncode(b);
    assert [FormEncode(a), FormEncode(b)][1..] == [FormEncode(b)];
  }

  // --------------------------------------------------------------------- URLs

  /** `createURL`: `http://` unless the host already starts with `http` (or
      `https`), then host, `:`, index port and `/`. A null host gives
      `http://null:<port>/`. */
  function CreateUrl(c: Config): (url: string)
    ensures StartsWith(url, "http")
    ensures |url| > 0 && url[|url| - 1] == '/'
    ensures c.host.Some? && StartsWith(c.host.value, "http") ==> StartsWith(url, c.host.value)
    ensures !(c.host.Some? && StartsWith(c.host.value, "http")) ==> StartsWith(url, "http://" + Str(c.host))
    ensures url == (if c.host.Some? && StartsWith(c.host.value, "http") then "" else "http://")
                   + Str(c.host) + ":" + IntToString(c.indexPort) + "/"
  {
    var prefix := if !StartsWithAny(c.host, ["http", "https"]) then "http://" else "";
    var url := prefix + Str(c.host) + ":" + IntToString(c.indexPort) + "/";
    SchemeOrHost(c.host, prefix, ":" + IntToString(c.indexPort) + "/");
    url
  }

  lemma SchemeOrHost(host: Option<string>, prefix: string, rest: string)
    requires prefix == if !StartsWithAny(host, ["http", "https"]) then "http://" else ""
    ensures StartsWith(prefix + Str(host) + rest, "http")
    ensures StartsWith(prefix + Str(host) + rest, prefix + Str(host))
    ensures prefix == "" <==> host.Some? && StartsWith(host.value, "http")
  {
    var url := prefix + Str(host) + rest;
    SchemePrefixRule(host);
    assert url[..|prefix + Str(host)|] == prefix + Str(host);
    if prefix == "" {
      assert url[..4] == host.value[..4];
    } else {
      assert url[..4] == "http";
    }
  }

  /** The `https` alternative adds nothing: the scheme is prepended exactly when
      the host is null or does not start with `http`. */
  lemma SchemePrefixRule(host: Option<string>)
    ensures StartsWithAny(host, ["http", "https"]) <==> host.Some? && StartsWith(host.value, "http")
  {
    if host.Some? && StartsWith(host.value, "https") {
      StartsWithLonger(host.value, "http", "s");
    }
  }

  /** Prefixing is idempotent: a host that lacks the scheme yields the same
      URL as the same host written with `http://`. */
  lemma CreateUrlSchemeIdempotent(c: Config, h: string)
    requires !StartsWith(h, "http")
    ensures CreateUrl(c.(host := Some(h))) == CreateUrl(c.(host := Some("http://" + h)))
  {
    SchemePrefixRule(Some(h));
    SchemePrefixRule(Some("http://" + h));
    assert ("http://" + h)[..4] == "http";
  }

  /** The port written in a base URL: the number between its last `:` and its
      final `/`. */
  function PortOf(url: string): Option<int> {
    var i := LastIndexOf(url, ':');
    if i == -1 || |url| == 0 || url[|url| - 1] != '/' || i + 1 > |url| - 1 then None
    else Some(ParseInt(url[i + 1..|url| - 1]))
  }

  /** The base URL carries the configured index port, whatever the host. */
  lemma CreateUrlPort(c: Config)
    ensures PortOf(CreateUrl(c)) == Some(c.indexPort as int)
  {
    var digits := IntToString(c.indexPort);
    var front := (if c.host.Some? && StartsWith(c.host.value, "http") then "" else "http://") + Str(c.host);
    PortAfterLastColon(front, digits, CreateUrl(c));
    ParseIntToString(c.indexPort);
  }

  /** The text between the last `:` and the final `/` of `front:digits/`,
      when the digits hold no `:`. */
  lemma PortAfterLastColon(front: string, digits: string, url: string)
    requires forall k :: 0 <= k < |digits| ==> digits[k] != ':'
    requires url == front + ":" + digits + "/"
    ensures PortOf(url) == Some(ParseInt(digits))
  {
    assert url == (front + ":") + (digits + "/");
    var i := LastIndexOf(url, ':');
    assert url[|front|] == ':';
    forall j | |front| < j < |url|
      ensures url[j] != ':'
    {
      if j < |url| - 1 {
        assert url[j] == digits[j - |front| - 1];
      }
    }
    assert i == |front|;
    assert url[i + 1..|url| - 1] == digits;
  }

  /** The committer's defaults against the host `x.com`. */
  lemma DefaultBaseUrl()
    ensures CreateUrl(NewCommitter().(host := Some("x.com"))) == "http://x.com:9001/"
  {
    DefaultIndexPortText();
    var c := NewCommitter().(host := Some("x.com"));
    assert !StartsWithAny(c.host, ["http", "https"]) by {
      SchemePrefixRule(c.host);
      assert "x.com"[..4][0] == 'x';
    }
  }

  lemma DefaultIndexPortText()
    ensures IntToString(DefaultIndexPort) == "9001"
  {
    assert NatToString(9001) == NatToString(900) + "1";
    assert NatToString(900) == NatToString(90) + "0";
    assert NatToString(90) == NatToString(9) + "0";
  }

  /** The extra DREDELETEREF parameters `dreDeleteRef` appends: the rendered
      query string when it is not blank and starts with `&`, else nothing. */
  function ExtraDeleteParams(qstring: string): (r: string)
    ensures r == (if StartsWith(qstring, "&") then qstring else "")
  {
    if !IsBlank(qstring) && StartsWith(qstring, "&") then
      assert qstring == "&" + qstring[1..];
      "&" + qstring[1..]
    else
      assert StartsWith(qstring, "&") ==> !IsWhitespace(qstring[0]);
      ""
  }

  /** The DREADDDATA URL: the query-string helper applied to the base URL
      followed by `DREADDDATA?`, with the addition parameters. A helper that
      only appends keeps that prefix; one that leaves a URL alone when there
      are no parameters gives exactly that prefix to a committer without
      addition parameters. */
  function AddUrl(c: Config, qs: QueryStrings): (url: string)
    ensures (forall u :: StartsWith(qs.applyOnUrl(c.dreAddDataParams, u), u)) ==>
      StartsWith(url, CreateUrl(c) + "DREADDDATA?")
    ensures c.dreAddDataParams == map[] && (forall u :: qs.applyOnUrl(map[], u) == u) ==>
      url == CreateUrl(c) + "DREADDDATA?"
  {
    qs.applyOnUrl(c.dreAddDataParams, CreateUrl(c) + "DREADDDATA?")
  }

  /** The DREDELETEREF URL: the references, the database and any extra
      deletion parameters, after the base URL. */
  function DeleteUrl(c: Config, qs: QueryStrings, refs: seq<string>): (url: string)
    ensures StartsWith(url, CreateUrl(c) + "DREDELETEREF?Docs=")
    ensures |url| >= |CreateUrl(c) + "DREDELETEREF?Docs="| + |BuildDeleteRefsContent(refs)| + |"&DREDbName="|
  {
    var front := CreateUrl(c) + "DREDELETEREF?Docs=";
    var docs := BuildDeleteRefsContent(refs);
    var db := Str(c.databaseName);
    var extra := ExtraDeleteParams(qs.render(c.dreDeleteRefParams));
    var url := front + docs + "&DREDbName=" + db + extra;
    DeleteUrlShape(front, docs, db, extra, url);
    url
  }

  /** The raw `Docs` text of the deletion URL, up to the first `&`, is the
      whole `+`-joined list of encoded references. Then come the database
      parameter and any extra deletion parameters, and the raw `DREDbName`
      text is the whole database name when the name holds no `&`. */
  lemma DeleteUrlParts(c: Config, qs: QueryStrings, refs: seq<string>)
    ensures var url := DeleteUrl(c, qs, refs);
      var front := CreateUrl(c) + "DREDELETEREF?Docs=";
      var docs := BuildDeleteRefsContent(refs);
      && QueryValue(url[|front|..]) == docs
      && url[|front| + |docs|..] == "&DREDbName=" + Str(c.databaseName) + ExtraDeleteParams(qs.render(c.dreDeleteRefParams))
      && ('&' !in Str(c.databaseName) ==>
            QueryValue(url[|front| + |docs| + |"&DREDbName="|..]) == Str(c.databaseName))
  {
    var front := CreateUrl(c) + "DREDELETEREF?Docs=";
    var docs := BuildDeleteRefsContent(refs);
    var db := Str(c.databaseName);
    var extra := ExtraDeleteParams(qs.render(c.dreDeleteRefParams));
    var url := DeleteUrl(c, qs, refs);
    assert url == front + docs + "&DREDbName=" + db + extra;
    DeleteUrlShape(front, docs, db, extra, url);
  }

  /** The DRESYNC URL: the base URL followed by `DRESYNC`. */
  function SyncUrl(c: Config): (url: string)
    ensures StartsWith(url, "http")
    ensures StartsWith(url, CreateUrl(c)) && url[|CreateUrl(c)|..] == "DRESYNC"
  {
    var base := CreateUrl(c);
    assert (base + "DRESYNC")[..4] == base[..4];
    assert (base + "DRESYNC")[..|base|] == base;
    base + "DRESYNC"
  }

  /** The shape of a deletion URL: the `Docs` value is read up to the `&` of
      the database parameter, and the database name is read whole when it
      holds no `&`, since the extra parameters start with `&` or are absent. */
  lemma DeleteUrlShape(front: string, docs: string, db: string, extra: string, url: string)
    requires '&' !in docs
    requires extra == "" || StartsWith(extra, "&")
    requires url == front + docs + "&DREDbName=" + db + extra
    ensures |url| == |front| + |docs| + |"&DREDbName="| + |db| + |extra|
    ensures StartsWith(url, front) && QueryValue(url[|front|..]) == docs
    ensures url[|front| + |docs|..] == "&DREDbName=" + db + extra
    ensures '&' !in db ==> QueryValue(url[|front| + |docs| + |"&DREDbName="|..]) == db
  {
    var tag := "&DREDbName=";
    Nest4(front, docs, tag, db, extra);
    Regroup3(tag, db, extra);
    DropPrefix(front, docs + (tag + (db + extra)));
    Regroup3(front, docs, tag + (db + extra));
    DropPrefix(front + docs, tag + (db + extra));
    Regroup3(front + docs, tag, db + extra);
    DropPrefix(front + docs + tag, db + extra);
    assert tag == "&" + "DREDbName=";
    Regroup3("&", "DREDbName=", db + extra);
    QueryValueAppend(docs, "DREDbName=" + (db + extra));
    DbNameValue(db, extra);
  }

  lemma DbNameValue(db: string, extra: string)
    requires extra == "" || StartsWith(extra, "&")
    ensures '&' !in db ==> QueryValue(db + extra) == db
  {
    if '&' !in db {
      if extra == "" {
        assert db + extra == db;
      } else {
        assert extra == "&" + extra[1..];
        QueryValueAppend(db, extra[1..]);
      }
    }
  }

  // ------------------------------------------------------------------ posting

  /** The addition request: the DREADDDATA URL, and a body that reads back
      as the documents of the additions whose streams open. */
  function AddRequest(c: Config, qs: QueryStrings, adds: seq<AddDocument>): (r: Request)
    ensures r.url == AddUrl(c, qs)
    ensures (forall i :: 0 <= i < |adds| && !adds[i].content.CannotOpen? ==>
               Idx.Decodable(IdxDocumentOf(c, adds[i].metadata))) ==>
      Idx.ParseBatch(r.body) == Some(IdxDocumentsOf(c, adds))
  {
    var body := BuildIdxBatchContent(c, adds);
    if forall i :: 0 <= i < |adds| && !adds[i].content.CannotOpen? ==> Idx.Decodable(IdxDocumentOf(c, adds[i].metadata)) then
      BatchContentRoundTrip(c, adds);
      Request(AddUrl(c, qs), body)
    else
      Request(AddUrl(c, qs), body)
  }

  /** The deletion request: an empty body, and a URL whose `Docs` value is the
      `+`-joined list of encoded references. */
  function DeleteRequest(c: Config, qs: QueryStrings, refs: seq<string>): (r: Request)
    ensures r.body == ""
    ensures var front := CreateUrl(c) + "DREDELETEREF?Docs=";
      StartsWith(r.url, front) && QueryValue(r.url[|front|..]) == BuildDeleteRefsContent(refs)
  {
    DeleteUrlParts(c, qs, refs);
    Request(DeleteUrl(c, qs, refs), "")
  }

  /** The synchronisation request: an empty body posted to `DRESYNC` after the
      base URL. */
  function SyncRequest(c: Config): (r: Request)
    ensures r.body == ""
    ensures StartsWith(r.url, CreateUrl(c)) && r.url[|CreateUrl(c)|..] == "DRESYNC"
  {
    Request(SyncUrl(c), "")
  }

  /** `post`'s verdict on the server's reply: accepted only when the response
      body contains `INDEXID`; an I/O failure is an error too. */
  function Post(reply: Reply): (o: Outcome<CommitterError>)
    ensures o.Pass? <==> reply.Received? && exists i :: OccursAt(reply.body, "INDEXID", i)
    ensures reply.IoFailure? ==> o == Fail(CannotPost)
    ensures reply.Received? && o.Fail? ==> o.error == UnexpectedResponse(reply.body)
  {
    match reply
    case IoFailure => Fail(CannotPost)
    case Received(body) => if Contains(body, "INDEXID") then Pass else Fail(UnexpectedResponse(body))
  }

  lemma PostExamples()
    ensures Post(Received("<autnresponse>INDEXID=123</autnresponse>")).Pass?
    ensures Post(Received("ERROR")) == Fail(UnexpectedResponse("ERROR"))
  {
    var ok := "<autnresponse>INDEXID=123</autnresponse>";
    assert ok == "<autnresponse>" + "INDEXID" + "=123</autnresponse>";
    assert OccursAt(ok, "INDEXID", 14);
  }

  /** The requests one call sent, in order, and how the call ended. */
  datatype Exchange = Exchange(sent: seq<Request>, outcome: Outcome<CommitterError>)

  /** `commitBatch`: partition, then the deletion request, then the addition
      request; `server` gives the reply to each request. */
  function CommitBatch(c: Config, qs: QueryStrings, batch: seq<Operation>, server: Request -> Reply): (x: Exchange)
    ensures !AllSupported(batch) ==>
      && x.sent == []
      && x.outcome.Fail? && x.outcome.error.UnsupportedOperation?
      && exists j :: 0 <= j < |batch| && batch[j] == x.outcome.error.operation
                     && batch[j].Unsupported? && AllSupported(batch[..j])
    ensures AllSupported(batch) ==>
      && 1 <= |x.sent| <= 2
      && x.sent[0] == DeleteRequest(c, qs, DeletesIn(batch))
      && (|x.sent| == 2 <==> Post(server(x.sent[0])).Pass?)
      && (|x.sent| == 1 ==> x.outcome == Post(server(x.sent[0])))
      && (|x.sent| == 2 ==> x.sent[1] == AddRequest(c, qs, AddsIn(batch)) && x.outcome == Post(server(x.sent[1])))
  {
    match Partition(batch)
    case Failure(op) => Exchange([], Fail(UnsupportedOperation(op)))
    case Success(parts) =>
      var del := DeleteRequest(c, qs, parts.deletions);
      match Post(server(del))
      case Fail(e) => Exchange([del], Fail(e))
      case Pass =>
        var add := AddRequest(c, qs, parts.additions);
        Exchange([del, add], Post(server(add)))
  }

  /** A commit that succeeds has sent every deletion of the batch before any
      addition, in one request each, whichever list is empty. */
  lemma CommitSuccessSendsBoth(c: Config, qs: QueryStrings, batch: seq<Operation>, server: Request -> Reply)
    requires CommitBatch(c, qs, batch, server).outcome.Pass?
    ensures var x := CommitBatch(c, qs, batch, server);
      && AllSupported(batch)
      && x.sent == [DeleteRequest(c, qs, DeletesIn(batch)), AddRequest(c, qs, AddsIn(batch))]
      && |AddsIn(batch)| + |DeletesIn(batch)| == |batch|
  {
    var x := CommitBatch(c, qs, batch, server);
    AddsAndDeletesCoverBatch(batch);
  }

  /** `sync`: one DRESYNC request, judged like every other; the error `post`
      raises is passed up unchanged. */
  function Sync(c: Config, server: Request -> Reply): (x: Exchange)
    ensures x.sent == [SyncRequest(c)]
    ensures x.outcome == Post(server(SyncRequest(c)))
    ensures x.outcome.Pass? <==> server(SyncRequest(c)).Received? && Contains(server(SyncRequest(c)).body, "INDEXID")
  {
    var req := SyncRequest(c);
    Exchange([req], Post(server(req)))
  }
}
