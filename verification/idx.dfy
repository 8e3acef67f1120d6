/** The IDX text format both committers post to the IDOL index port with
    DREADDDATA: one block per document, then a batch terminator.

        #DREREFERENCE <reference>
        #DREFIELD <name>="<value>"      one line per (name, value) pair
        #DREDBNAME <database>
        #DRECONTENT
        <content>
        #DREENDDOC
        ...
        #DREENDDATANOOP

    Every marker is written with a leading line break, values are written
    between quotes without any escaping, and the terminator is followed by a
    blank line. The module also holds a reader for the format, which inverts
    the writer on every document it can represent (see `Decodable`). */
module Idx {
  import opened Wrappers
  import opened JavaLang
  import opened Seqs
  import opened Metadata

  const ReferenceTag: string := "\n#DREREFERENCE "
  const FieldTag: string := "\n#DREFIELD "
  const DbNameTag: string := "\n#DREDBNAME "
  const ContentTag: string := "\n#DRECONTENT\n"
  const EndDocTag: string := "\n#DREENDDOC \n"
  const EndDataTag: string := "\n#DREENDDATANOOP\n\n"

  /** What one IDX block carries. */
  datatype Document = Document(reference: string, fields: seq<Pair>, dbName: string, content: string)

  // ------------------------------------------------------------------ writing

  /** `#DREFIELD name="value"`, with no escaping of the value. */
  function FieldLine(f: Pair): string {
    FieldTag + f.key + "=\"" + f.value + "\""
  }

  function FieldLines(fs: seq<Pair>): string {
    if |fs| == 0 then "" else FieldLine(fs[0]) + FieldLines(fs[1..])
  }

  /** A block up to and including the content marker. */
  function Head(d: Document): string {
    ReferenceTag + d.reference + FieldLines(d.fields) + DbNameTag + d.dbName + ContentTag
  }

  /** The complete block of one document. */
  function Block(d: Document): string {
    Head(d) + d.content + EndDocTag
  }

  function Blocks(ds: seq<Document>): string {
    if |ds| == 0 then "" else Block(ds[0]) + Blocks(ds[1..])
  }

  /** A batch: the blocks in order, then exactly one terminator. */
  function Batch(ds: seq<Document>): string {
    Blocks(ds) + EndDataTag
  }

  // ------------------------------------------------------------------ reading

  /** Index of the first `\n` at or after `i`, or `|s|`. */
  function NewlineAt(s: string, i: nat): (k: nat)
    requires i <= |s|
    ensures i <= k <= |s|
    ensures k < |s| ==> s[k] == '\n'
    ensures forall j :: i <= j < k ==> s[j] != '\n'
    decreases |s| - i
  {
    if i == |s| || s[i] == '\n' then i else NewlineAt(s, i + 1)
  }

  /** A line break followed by `#`, the start of a marker, is at `k`. */
  predicate MarkerAt(s: string, k: int) {
    0 <= k && k + 1 < |s| && s[k] == '\n' && s[k + 1] == '#'
  }

  /** Index of the first marker at or after `i`, or `|s|`. */
  function MarkerFrom(s: string, i: nat): (k: nat)
    requires i <= |s|
    ensures i <= k <= |s|
    ensures k < |s| ==> MarkerAt(s, k)
    ensures forall j :: i <= j < k ==> !MarkerAt(s, j)
    decreases |s| - i
  {
    if i == |s| || MarkerAt(s, i) then i else MarkerFrom(s, i + 1)
  }

  /** Reads `name="value"`: the name ends at the first `=`, the value is
      everything between the quote after it and the line's final quote. */
  function ParseFieldLine(line: string): Option<Pair> {
    var e := IndexOf(line, "=", 0);
    if e == -1 || |line| < e + 3 || line[e + 1] != '"' || line[|line| - 1] != '"' then None
    else Some(Pair(line[..e], line[e + 2..|line| - 1]))
  }

  /** Reads the `#DREFIELD` lines at the start of `s`. */
  function ParseFields(s: string): (r: Option<(seq<Pair>, string)>)
    ensures r.Some? ==> |r.value.1| <= |s|
    decreases |s|
  {
    if !StartsWith(s, FieldTag) then Some(([], s))
    else
      var body := s[|FieldTag|..];
      var k := NewlineAt(body, 0);
      match ParseFieldLine(body[..k])
      case None => None
      case Some(f) =>
        match ParseFields(body[k..])
        case None => None
        case Some((fs, rest)) => Some(([f] + fs, rest))
  }

  /** Reads the end of a block, from the database marker on: the database
      name, the content up to the next marker, and the end-of-document marker.
      Returns both texts and what follows the block. The content is read line
      by line from the line break that ends the content marker, so a first
      content line starting with `#` is a marker too: it leaves the block
      without a content line, which does not read. */
  function ParseTrailer(s: string): (r: Option<(string, string, string)>)
    ensures r.Some? ==> |r.value.2| < |s|
  {
    if !StartsWith(s, DbNameTag) then None
    else
      var s1 := s[|DbNameTag|..];
      var k1 := NewlineAt(s1, 0);
      var s2 := s1[k1..];
      if !StartsWith(s2, ContentTag) then None
      else
        var s3 := s2[|ContentTag| - 1..];
        var k3 := MarkerFrom(s3, 0);
        if k3 == 0 then None
        else
          var s4 := s3[k3..];
          if !StartsWith(s4, EndDocTag) then None
          else Some((s1[..k1], s3[1..k3], s4[|EndDocTag|..]))
  }

  /** Reads one block at the start of `s`, returning the document and the text
      after it. The content runs up to the next marker. */
  function ParseBlock(s: string): (r: Option<(Document, string)>)
    ensures r.Some? ==> |r.value.1| < |s|
  {
    if !StartsWith(s, ReferenceTag) then None
    else
      var s1 := s[|ReferenceTag|..];
      var k1 := NewlineAt(s1, 0);
      match ParseFields(s1[k1..])
      case None => None
      case Some((fields, s2)) =>
        match ParseTrailer(s2)
        case None => None
        case Some((db, content, rest)) => Some((Document(s1[..k1], fields, db, content), rest))
  }

  /** Reads a whole batch: blocks up to the terminator, which must end the text. */
  function ParseBatch(s: string): Option<seq<Document>>
    decreases |s|
  {
    if s == EndDataTag then Some([])
    else
      match ParseBlock(s)
      case None => None
      case Some((d, rest)) =>
        match ParseBatch(rest)
        case None => None
        case Some(ds) => Some([d] + ds)
  }

  // --------------------------------------------------------------- round trip

  /** A field survives the format when its name has no `=` and neither part
      has a line break; quotes inside a value are harmless. */
  predicate DecodableField(f: Pair) {
    '\n' !in f.key && '=' !in f.key && '\n' !in f.value
  }

  /** No line of the content starts with `#`, so none reads as a marker. The
      first line counts: it follows the line break of the content marker. */
  predicate NoMarker(content: string) {
    forall i :: 0 <= i < |content| ==> !MarkerAt("\n" + content, i)
  }

  /** The documents the format can carry without ambiguity. */
  predicate Decodable(d: Document) {
    && '\n' !in d.reference
    && '\n' !in d.dbName
    && (forall i :: 0 <= i < |d.fields| ==> DecodableField(d.fields[i]))
    && NoMarker(d.content)
  }

  /** Every document of a list is representable. */
  predicate AllDecodable(ds: seq<Document>) {
    forall i :: 0 <= i < |ds| ==> Decodable(ds[i])
  }

  lemma AllDecodableAppend(xs: seq<Document>, ys: seq<Document>)
    requires AllDecodable(xs) && AllDecodable(ys)
    ensures AllDecodable(xs + ys)
  {
    forall i | 0 <= i < |xs + ys|
      ensures Decodable((xs + ys)[i])
    {
      if i >= |xs| {
        assert (xs + ys)[i] == ys[i - |xs|];
      } else {
        assert (xs + ys)[i] == xs[i];
      }
    }
  }

  lemma NewlineAtEnd(x: string, rest: string)
    requires '\n' !in x
    requires |rest| > 0 && rest[0] == '\n'
    ensures NewlineAt(x + rest, 0) == |x|
    ensures (x + rest)[..|x|] == x && (x + rest)[|x|..] == rest
  {
    var s := x + rest;
    assert s[|x|] == '\n';
    forall j | 0 <= j < |x|
      ensures s[j] != '\n'
    {
      assert s[j] == x[j];
    }
  }

  lemma MarkerFromEnd(c: string, rest: string)
    requires forall i :: 0 <= i < |c| ==> !MarkerAt(c, i)
    requires |rest| > 1 && rest[0] == '\n' && rest[1] == '#'
    ensures MarkerFrom(c + rest, 0) == |c|
    ensures (c + rest)[..|c|] == c && (c + rest)[|c|..] == rest
  {
    var s := c + rest;
    assert MarkerAt(s, |c|);
    forall j | 0 <= j < |c|
      ensures !MarkerAt(s, j)
    {
      assert s[j] == c[j];
      if j + 1 < |c| {
        assert s[j + 1] == c[j + 1];
        assert !MarkerAt(c, j);
      } else {
        assert s[j + 1] == rest[0];
      }
    }
  }

  lemma ParseFieldLineRoundTrip(f: Pair)
    requires DecodableField(f)
    ensures ParseFieldLine(f.key + "=\"" + f.value + "\"") == Some(f)
  {
    var line := f.key + "=\"" + f.value + "\"";
    assert OccursAt(line, "=", |f.key|);
    forall j | 0 <= j < |f.key|
      ensures !OccursAt(line, "=", j)
    {
      assert line[j..j + 1] == [f.key[j]];
    }
    var e := IndexOf(line, "=", 0);
    assert e == |f.key|;
    assert line[..e] == f.key;
    assert line[e + 2..|line| - 1] == f.value;
  }

  /** The text after a block's fields: what `ParseFields` must stop at. */
  lemma DbNameIsNotField(rest: string)
    requires StartsWith(rest, DbNameTag)
    ensures !StartsWith(rest, FieldTag)
  {
    assert rest[5] == DbNameTag[5];
  }

  lemma {:induction false} ParseFieldsRoundTrip(fs: seq<Pair>, rest: string)
    requires forall i :: 0 <= i < |fs| ==> DecodableField(fs[i])
    requires StartsWith(rest, DbNameTag)
    ensures ParseFields(FieldLines(fs) + rest) == Some((fs, rest))
    decreases |fs|
  {
    if |fs| == 0 {
      assert FieldLines(fs) + rest == rest;
      DbNameIsNotField(rest);
    } else {
      ParseFieldsRoundTrip(fs[1..], rest);
      FieldLinesCons(fs, rest);
      FieldLineStep(fs[0], FieldLines(fs[1..]) + rest, fs[1..], rest);
      assert fs == [fs[0]] + fs[1..];
    }
  }

  /** Field lines in front of the database marker: the first line, then the
      rest, which starts a new line. */
  lemma FieldLinesCons(fs: seq<Pair>, rest: string)
    requires |fs| > 0 && StartsWith(rest, DbNameTag)
    ensures FieldLines(fs) + rest == FieldLine(fs[0]) + (FieldLines(fs[1..]) + rest)
    ensures var after := FieldLines(fs[1..]) + rest; |after| > 0 && after[0] == '\n'
  {
    Regroup3(FieldLine(fs[0]), FieldLines(fs[1..]), rest);
    var after := FieldLines(fs[1..]) + rest;
    if |fs[1..]| > 0 {
      assert after[0] == FieldLine(fs[1..][0])[0];
    } else {
      assert after == rest;
    }
  }

  lemma FieldLineStep(f: Pair, after: string, tail: seq<Pair>, rest: string)
    requires DecodableField(f)
    requires |after| > 0 && after[0] == '\n'
    requires ParseFields(after) == Some((tail, rest))
    ensures ParseFields(FieldLine(f) + after) == Some(([f] + tail, rest))
  {
    var line := FieldLineSplit(f);
    Regroup3(FieldTag, line, after);
    ParseFieldsCons(FieldLine(f) + after, line, after);
  }

  /** A field line is the field marker and a line that reads back as the field. */
  lemma FieldLineSplit(f: Pair) returns (line: string)
    requires DecodableField(f)
    ensures FieldLine(f) == FieldTag + line
    ensures '\n' !in line && ParseFieldLine(line) == Some(f)
  {
    line := f.key + "=\"" + f.value + "\"";
    assert '\n' !in line by {
      assert line == f.key + ("=\"" + f.value + "\"");
    }
    ParseFieldLineRoundTrip(f);
  }

  /** A field line in front of text that starts a new line adds that field
      to whatever the text reads as. */
  lemma ParseFieldsCons(s: string, line: string, after: string)
    requires s == FieldTag + (line + after)
    requires '\n' !in line && ParseFieldLine(line).Some?
    requires |after| > 0 && after[0] == '\n'
    ensures ParseFields(after).Some? ==>
      ParseFields(s) == Some(([ParseFieldLine(line).value] + ParseFields(after).value.0, ParseFields(after).value.1))
  {
    assert s[..|FieldTag|] == FieldTag;
    var body := s[|FieldTag|..];
    assert body == line + after;
    NewlineAtEnd(line, after);
  }

  /** A block followed by more text, written with the concatenations nested
      to the right, in reading order. */
  lemma BlockShape(d: Document, rest: string)
    ensures Block(d) + rest
      == ReferenceTag + (d.reference + (FieldLines(d.fields) + (DbNameTag + (d.dbName + (ContentTag + (d.content + (EndDocTag + rest)))))))
  {
    Nest8(ReferenceTag, d.reference, FieldLines(d.fields), DbNameTag, d.dbName, ContentTag, d.content, EndDocTag, rest);
  }

  lemma TrailerRoundTrip(db: string, content: string, rest: string)
    requires '\n' !in db && NoMarker(content)
    ensures ParseTrailer(DbNameTag + (db + (ContentTag + (content + (EndDocTag + rest))))) == Some((db, content, rest))
  {
    var t := ContentTag + (content + (EndDocTag + rest));
    assert (DbNameTag + (db + t))[|DbNameTag|..] == db + t;
    NewlineAtEnd(db, t);
    var lines := "\n" + content;
    assert t[|ContentTag| - 1..] == lines + (EndDocTag + rest);
    forall i | 0 <= i < |lines|
      ensures !MarkerAt(lines, i)
    {
      if i < |content| {
        assert !MarkerAt("\n" + content, i);
      }
    }
    MarkerFromEnd(lines, EndDocTag + rest);
    assert lines[1..] == content;
  }

  /** Reading a block back gives the document and leaves the text after it. */
  lemma ParseBlockRoundTrip(d: Document, rest: string)
    requires Decodable(d)
    ensures ParseBlock(Block(d) + rest) == Some((d, rest))
  {
    var t2 := DbNameTag + (d.dbName + (ContentTag + (d.content + (EndDocTag + rest))));
    var t1 := FieldLines(d.fields) + t2;
    BlockShape(d, rest);
    var s := Block(d) + rest;
    assert s[|ReferenceTag|..] == d.reference + t1;
    assert |t1| > 0 && t1[0] == '\n' by {
      if |d.fields| > 0 {
        assert t1[0] == FieldLine(d.fields[0])[0];
      } else {
        assert t1 == t2;
      }
    }
    NewlineAtEnd(d.reference, t1);
    ParseFieldsRoundTrip(d.fields, t2);
    TrailerRoundTrip(d.dbName, d.content, rest);
  }

  /** A batch of representable documents reads back as exactly those
      documents: one block per document, in order, and one terminator. */
  lemma {:induction false} ParseBatchRoundTrip(ds: seq<Document>)
    requires AllDecodable(ds)
    ensures ParseBatch(Batch(ds)) == Some(ds)
    decreases |ds|
  {
    if |ds| > 0 {
      var rest := Batch(ds[1..]);
      BatchFirstBlock(ds);
      ParseBatchRoundTrip(ds[1..]);
      ParseBatchStep(Batch(ds), ds[0], rest, ds[1..]);
      assert ds == [ds[0]] + ds[1..];
    } else {
      assert Batch(ds) == EndDataTag;
    }
  }

  /** The first block of a batch reads back as its first document, leaving the
      batch of the rest. */
  lemma BatchFirstBlock(ds: seq<Document>)
    requires |ds| > 0 && Decodable(ds[0])
    ensures ParseBlock(Batch(ds)) == Some((ds[0], Batch(ds[1..]))) && Batch(ds) != EndDataTag
  {
    BatchCons(ds);
    ParseBlockRoundTrip(ds[0], Batch(ds[1..]));
  }

  lemma ParseBatchStep(s: string, d: Document, rest: string, ds: seq<Document>)
    requires s != EndDataTag
    requires ParseBlock(s) == Some((d, rest))
    requires ParseBatch(rest) == Some(ds)
    ensures ParseBatch(s) == Some([d] + ds)
  {
  }

  /** A non-empty batch is its first block followed by the batch of the rest,
      and is never the bare terminator. */
  lemma BatchCons(ds: seq<Document>)
    requires |ds| > 0
    ensures Batch(ds) == Block(ds[0]) + Batch(ds[1..])
    ensures Batch(ds) != EndDataTag
  {
    var s := Batch(ds);
    assert s == Block(ds[0]) + Batch(ds[1..]);
    BlockShape(ds[0], Batch(ds[1..]));
    assert s[5] == ReferenceTag[5];
  }

  // ---------------------------------------------------------- broken blocks

  /** A block cut short after its content marker, followed by more text. */
  lemma HeadShape(d: Document, rest: string)
    ensures Head(d) + rest
      == ReferenceTag + (d.reference + (FieldLines(d.fields) + (DbNameTag + (d.dbName + (ContentTag + rest)))))
  {
    Nest6(ReferenceTag, d.reference, FieldLines(d.fields), DbNameTag, d.dbName, ContentTag, rest);
  }

  lemma TrailerTruncated(db: string, rest: string)
    requires '\n' !in db
    requires MarkerAt(rest, 0) && !StartsWith(rest, EndDocTag)
    ensures ParseTrailer(DbNameTag + (db + (ContentTag + rest))) == None
  {
    var t := ContentTag + rest;
    assert (DbNameTag + (db + t))[|DbNameTag|..] == db + t;
    NewlineAtEnd(db, t);
    var s3 := t[|ContentTag| - 1..];
    assert s3 == "\n" + rest;
    assert !MarkerAt(s3, 0) && MarkerAt(s3, 1);
    assert s3[1..] == rest;
  }

  lemma TrailerFirstLineMarker(db: string, more: string)
    requires '\n' !in db
    requires |more| > 0 && more[0] == '#'
    ensures ParseTrailer(DbNameTag + (db + (ContentTag + more))) == None
  {
    var t := ContentTag + more;
    assert (DbNameTag + (db + t))[|DbNameTag|..] == db + t;
    NewlineAtEnd(db, t);
    var s3 := t[|ContentTag| - 1..];
    assert s3 == "\n" + more;
    assert MarkerAt(s3, 0);
  }

  /** A block that stops right after its content marker, followed by another
      marker that is not the end of the document, does not read as a block. */
  lemma ParseBlockTruncated(d: Document, rest: string)
    requires '\n' !in d.reference && '\n' !in d.dbName
    requires forall i :: 0 <= i < |d.fields| ==> DecodableField(d.fields[i])
    requires MarkerAt(rest, 0) && !StartsWith(rest, EndDocTag)
    ensures ParseBlock(Head(d) + rest) == None
  {
    var t2 := DbNameTag + (d.dbName + (ContentTag + rest));
    var t1 := FieldLines(d.fields) + t2;
    HeadShape(d, rest);
    var s := Head(d) + rest;
    assert s[|ReferenceTag|..] == d.reference + t1;
    assert |t1| > 0 && t1[0] == '\n' by {
      if |d.fields| > 0 {
        assert t1[0] == FieldLine(d.fields[0])[0];
      } else {
        assert t1 == t2;
      }
    }
    NewlineAtEnd(d.reference, t1);
    ParseFieldsRoundTrip(d.fields, t2);
    TrailerTruncated(d.dbName, rest);
  }

  /** A content whose first line starts with `#` ends the document right
      after the content marker, with no content line: the block written for it
      does not read back, whatever follows. So `Decodable` must exclude it. */
  lemma FirstLineMarkerBreaksBlock(d: Document, rest: string)
    requires '\n' !in d.reference && '\n' !in d.dbName
    requires forall i :: 0 <= i < |d.fields| ==> DecodableField(d.fields[i])
    requires |d.content| > 0 && d.content[0] == '#'
    ensures ParseBlock(Block(d) + rest) == None
  {
    var more := d.content + (EndDocTag + rest);
    var t2 := DbNameTag + (d.dbName + (ContentTag + more));
    var t1 := FieldLines(d.fields) + t2;
    BlockShape(d, rest);
    var s := Block(d) + rest;
    assert s[|ReferenceTag|..] == d.reference + t1;
    assert |t1| > 0 && t1[0] == '\n' by {
      if |d.fields| > 0 {
        assert t1[0] == FieldLine(d.fields[0])[0];
      } else {
        assert t1 == t2;
      }
    }
    NewlineAtEnd(d.reference, t1);
    ParseFieldsRoundTrip(d.fields, t2);
    TrailerFirstLineMarker(d.dbName, more);
  }

  /** Text that is not the bare terminator and does not start with a block
      is not a batch. */
  lemma ParseBatchNoBlock(s: string)
    requires s != EndDataTag && ParseBlock(s).None?
    ensures ParseBatch(s).None?
  {
  }

  /** A batch whose first block reads but whose remainder does not is not a
      batch. */
  lemma ParseBatchBadRest(s: string, d: Document, rest: string)
    requires s != EndDataTag
    requires ParseBlock(s) == Some((d, rest)) && ParseBatch(rest).None?
    ensures ParseBatch(s).None?
  {
  }
}
