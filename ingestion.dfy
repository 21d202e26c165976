/**
 * The rebuild script: empty the collection, then insert one
 * `{file_name, text, embedding}` record for every regular file of the data
 * directory, in listing order.
 *
 * The directory is a given listing of entries; an entry that is a regular
 * file carries its content, or `None` when opening or reading it fails, which
 * raises and ends the script. The sentence encoder is the parameter `embed`.
 */
module Ingestion {
  import opened Scoring

  /** A directory entry: its name, whether it is a regular file, and what reading it yields. */
  datatype Entry = Entry(name: string, isFile: bool, content: Option<string>)

  /** The document `insert_document_in_mongodb` builds. */
  datatype Record = Record(fileName: string, text: string, embedding: Vector)

  /** The sentence encoder followed by `.tolist()`. */
  type Embedder = string -> Vector

  /** The store: the records it holds, in insertion order. */
  class Collection {
    var records: seq<Record>

    constructor ()
      ensures records == []
    {
      records := [];
    }

    /** `delete_many({})`. */
    method DeleteMany()
      modifies this
      ensures records == []
    {
      records := [];
    }

    /** `insert_one(document)`: one record appended, the others untouched. */
    method InsertOne(r: Record)
      modifies this
      ensures records == old(records) + [r]
    {
      records := records + [r];
    }
  }

  /** `insert_document_in_mongodb`: builds the record and inserts it. */
  method InsertDocument(fileName: string, text: string, embedding: Vector, collection: Collection)
    modifies collection
    ensures collection.records == old(collection.records) + [Record(fileName, text, embedding)]
  {
    var document := Record(fileName, text, embedding);
    collection.InsertOne(document);
  }

  /** Every regular file of the listing can be read. */
  predicate AllReadable(listing: seq<Entry>)
  {
    forall i :: 0 <= i < |listing| && listing[i].isFile ==> listing[i].content.Some?
  }

  /** The regular files of the listing, in listing order. */
  function Regular(listing: seq<Entry>): (r: seq<Entry>)
    ensures |r| <= |listing|
  {
    if listing == [] then []
    else (if listing[0].isFile then [listing[0]] else []) + Regular(listing[1..])
  }

  /** The regular files of the listing: nothing else, and every one of them. */
  lemma {:induction false} RegularMembers(listing: seq<Entry>)
    ensures forall e :: e in Regular(listing) ==> e in listing && e.isFile
    ensures forall i :: 0 <= i < |listing| && listing[i].isFile ==> listing[i] in Regular(listing)
    decreases |listing|
  {
    if listing != [] {
      RegularMembers(listing[1..]);
      assert forall i :: 1 <= i < |listing| ==> listing[i] == listing[1..][i - 1];
    }
  }

  /** Each regular file occurs in `Regular` as often as in the listing, and nothing else occurs. */
  lemma {:induction false} RegularMultiplicity(listing: seq<Entry>, e: Entry)
    ensures multiset(Regular(listing))[e] == if e.isFile then multiset(listing)[e] else 0
    decreases |listing|
  {
    if listing != [] {
      RegularMultiplicity(listing[1..], e);
      assert listing == [listing[0]] + listing[1..];
    }
  }

  /**
   * The filter keeps listing order: over a concatenated listing it gives the
   * regular files of the first part followed by those of the second, and a
   * single entry is kept exactly when it is a regular file.
   */
  lemma {:induction false} RegularAppend(a: seq<Entry>, b: seq<Entry>)
    ensures Regular(a + b) == Regular(a) + Regular(b)
    ensures Regular([]) == []
    ensures forall e :: Regular([e]) == if e.isFile then [e] else []
    decreases |a|
  {
    forall e ensures Regular([e]) == if e.isFile then [e] else [] {
      RegularSingle(e);
    }
    if a == [] {
      assert a + b == b;
    } else {
      assert (a + b)[1..] == a[1..] + b;
      RegularAppend(a[1..], b);
    }
  }

  lemma RegularSingle(e: Entry)
    ensures Regular([e]) == if e.isFile then [e] else []
  {
    assert [e][1..] == [];
  }

  /**
   * What the loop leaves in the emptied store: a record per regular file,
   * up to the first regular file that cannot be read.
   */
  function Ingested(listing: seq<Entry>, embed: Embedder): (rs: seq<Record>)
    ensures |rs| <= |Regular(listing)|
  {
    if listing == [] then []
    else if !listing[0].isFile then Ingested(listing[1..], embed)
    else if listing[0].content.None? then []
    else
      var text := listing[0].content.value;
      [Record(listing[0].name, text, embed(text))] + Ingested(listing[1..], embed)
  }

  lemma AllReadableTail(listing: seq<Entry>)
    requires listing != [] && AllReadable(listing)
    ensures AllReadable(listing[1..])
  {
    forall i | 0 <= i < |listing[1..]| && listing[1..][i].isFile ensures listing[1..][i].content.Some? {
      assert listing[1..][i] == listing[i + 1];
    }
  }

  /** Over a readable prefix the loop goes on to the rest. */
  lemma {:induction false} IngestedAppend(p: seq<Entry>, rest: seq<Entry>, embed: Embedder)
    requires AllReadable(p)
    ensures Ingested(p + rest, embed) == Ingested(p, embed) + Ingested(rest, embed)
    decreases |p|
  {
    if p != [] {
      var q := p + rest;
      assert q[0] == p[0] && q[1..] == p[1..] + rest;
      assert p[0].isFile ==> p[0].content.Some?;
      AllReadableTail(p);
      IngestedAppend(p[1..], rest, embed);
    } else {
      assert p + rest == rest;
    }
  }

  /** One turn of the loop over a readable entry. */
  lemma IngestStep(listing: seq<Entry>, i: nat, embed: Embedder)
    requires i < |listing| && AllReadable(listing[..i])
    requires listing[i].isFile ==> listing[i].content.Some?
    ensures AllReadable(listing[..i + 1])
    ensures Ingested(listing[..i + 1], embed) ==
              Ingested(listing[..i], embed) +
              (if listing[i].isFile
               then [Record(listing[i].name, listing[i].content.value, embed(listing[i].content.value))]
               else [])
  {
    assert listing[..i + 1] == listing[..i] + [listing[i]];
    IngestedAppend(listing[..i], [listing[i]], embed);
    var p := listing[..i + 1];
    forall j | 0 <= j < |p| && p[j].isFile ensures p[j].content.Some? {
      if j < i {
        assert p[j] == listing[..i][j];
      }
    }
  }

  /** The first unreadable regular file ends the loop: nothing after it is inserted. */
  lemma IngestedStops(listing: seq<Entry>, i: nat, embed: Embedder)
    requires i < |listing| && AllReadable(listing[..i])
    requires listing[i].isFile && listing[i].content.None?
    ensures Ingested(listing, embed) == Ingested(listing[..i], embed)
    ensures !AllReadable(listing)
  {
    assert listing == listing[..i] + listing[i..];
    IngestedAppend(listing[..i], listing[i..], embed);
    assert listing[i..][0] == listing[i];
  }

  /** `r` is the record built for entry `e`: its name, its content, the content's embedding. */
  predicate RecordFor(e: Entry, r: Record, embed: Embedder)
  {
    r.fileName == e.name && e.content == Some(r.text) && r.embedding == embed(r.text)
  }

  /**
   * With every regular file readable, the store holds exactly one record per
   * regular file, in listing order, each built from its file.
   */
  lemma {:induction false} IngestedRecords(listing: seq<Entry>, embed: Embedder)
    requires AllReadable(listing)
    ensures |Ingested(listing, embed)| == |Regular(listing)|
    ensures forall j :: 0 <= j < |Regular(listing)| ==> RecordFor(Regular(listing)[j], Ingested(listing, embed)[j], embed)
    decreases |listing|
  {
    if listing != [] {
      AllReadableTail(listing);
      IngestedRecords(listing[1..], embed);
      var rest, rs := Regular(listing[1..]), Ingested(listing[1..], embed);
      if listing[0].isFile {
        var e := listing[0];
        var r := Record(e.name, e.content.value, embed(e.content.value));
        assert Regular(listing) == [e] + rest;
        assert Ingested(listing, embed) == [r] + rs;
        assert RecordFor(e, r, embed);
      }
    }
  }

  /**
   * The rebuild: the store is emptied, then every regular file is read,
   * encoded and inserted; entries that are not regular files are skipped.
   * `ok` is false when a read fails, and the store then keeps what was
   * inserted before the failure.
   */
  method Rebuild(collection: Collection, listing: seq<Entry>, embed: Embedder) returns (ok: bool)
    modifies collection
    ensures ok == AllReadable(listing)
    ensures collection.records == Ingested(listing, embed)
  {
    collection.DeleteMany();
    for i := 0 to |listing|
      invariant AllReadable(listing[..i])
      invariant collection.records == Ingested(listing[..i], embed)
    {
      var file := listing[i];
      if file.isFile {
        if file.content.None? {
          IngestedStops(listing, i, embed);
          return false;
        }
        var memberText := file.content.value;
        var embedding := embed(memberText);
        InsertDocument(file.name, memberText, embedding, collection);
      }
      IngestStep(listing, i, embed);
    }
    assert listing[..|listing|] == listing;
    ok := true;
  }

  /** Rebuilding twice from the same listing leaves the same records as rebuilding once. */
  method RebuildTwice(collection: Collection, listing: seq<Entry>, embed: Embedder)
      returns (first: seq<Record>, second: seq<Record>)
    modifies collection
    ensures first == second == collection.records == Ingested(listing, embed)
  {
    var ok := Rebuild(collection, listing, embed);
    first := collection.records;
    ok := Rebuild(collection, listing, embed);
    second := collection.records;
  }
}
