/**
 * Document ingestion: validate, recognise a re-upload, extract, chunk, embed, then write
 * vectors one by one and persist the records, rolling the vectors back on any failure.
 *
 * Extraction, embedding and the writes answer through an environment that may fail at any
 * point.  A failing upsert may or may not have written its vector; persisting is all or
 * nothing, as its port promises.
 */
module Ingestion {
  import opened Wrappers
  import opened Chunker

  type Bytes = seq<int>

  datatype Error =
    | SizeLimit | UnsupportedFormat | EmptyDocument
    | ExtractionFailed | EmbeddingFailed | UpsertFailed | PersistFailed

  datatype Document = Document(id: nat, filename: string, contentType: string, size: nat,
                               status: string, createdAt: int, contentHash: nat)

  datatype Stored = Stored(org: nat, document: Document, chunks: seq<Chunk>)

  datatype VectorRow = VectorRow(documentId: nat, org: Option<nat>, vector: int)

  /** The vector store, by chunk id, and the document store, in insertion order. */
  datatype Stores = Stores(vectors: map<nat, VectorRow>, documents: seq<Stored>)

  datatype Settings = Settings(
    chunking: Config,
    maxBytes: nat,
    supported: set<string>,
    isSpace: char -> bool,
    hash: Bytes -> nat,
    findsDuplicates: bool,
    tenantUpsert: bool)

  datatype Upload = Upload(filename: string, contentType: string, data: Bytes, org: nat)

  /** What the world answers during one ingest: identifiers, results and faults. */
  datatype Env = Env(
    documentId: nat,
    chunkId: nat -> nat,
    now: int,
    extracted: Option<string>,
    vectors: Option<seq<int>>,
    faultyUpsert: Option<nat>,
    faultyUpsertWrites: bool,
    persistFails: bool)

  datatype Report = Report(documentId: nat, filename: string, chunkCount: nat, status: string, duplicate: bool)

  /** The first document of the organization with this content hash. */
  function FindByHash(documents: seq<Stored>, org: nat, hash: nat): (r: Option<Stored>)
    ensures r.Some? ==> r.value in documents && r.value.org == org && r.value.document.contentHash == hash
    ensures r.None? ==> forall d | d in documents :: !(d.org == org && d.document.contentHash == hash)
  {
    if documents == [] then None
    else if documents[0].org == org && documents[0].document.contentHash == hash then Some(documents[0])
    else FindByHash(documents[1..], org, hash)
  }

  predicate Blank(isSpace: char -> bool, text: string)
  {
    forall ch | ch in text :: isSpace(ch)
  }

  function Row(s: Settings, u: Upload, e: Env, vector: int): VectorRow
  {
    VectorRow(e.documentId, if s.tenantUpsert then Some(u.org) else None, vector)
  }

  /** The vectors after the first `n` pairs of `zip(chunks, vectors)` have been written. */
  function Upserted(s: Settings, u: Upload, e: Env, vectors: map<nat, VectorRow>,
                    chunks: seq<Chunk>, embedded: seq<int>, n: nat): map<nat, VectorRow>
    requires n <= |chunks| && n <= |embedded|
  {
    if n == 0 then vectors
    else Upserted(s, u, e, vectors, chunks, embedded, n - 1)[chunks[n - 1].id := Row(s, u, e, embedded[n - 1])]
  }

  function Without(vectors: map<nat, VectorRow>, documentId: nat): map<nat, VectorRow>
  {
    map k | k in vectors && vectors[k].documentId != documentId :: vectors[k]
  }

  function Pairs(chunks: seq<Chunk>, embedded: seq<int>): nat
  {
    if |chunks| <= |embedded| then |chunks| else |embedded|
  }

  function Record(s: Settings, u: Upload, e: Env, chunks: seq<Chunk>): Stored
  {
    var hash := s.hash(u.data);
    Stored(u.org, Document(e.documentId, u.filename, u.contentType, |u.data|, "ingested", e.now, hash), chunks)
  }

  function ReportOf(d: Stored, duplicate: bool): Report
  {
    Report(d.document.id, d.document.filename, |d.chunks|, d.document.status, duplicate)
  }

  class IngestionService {
    const settings: Settings
    var vectors: map<nat, VectorRow>
    var documents: seq<Stored>

    constructor (settings: Settings)
      ensures this.settings == settings && Contents() == Stores(map[], [])
    {
      this.settings := settings;
      vectors, documents := map[], [];
    }

    function Contents(): Stores
      reads this
    {
      Stores(vectors, documents)
    }

    method Ingest(u: Upload, e: Env) returns (r: Result<Report, Error>)
      requires Valid(settings.chunking) && Fresh(Contents(), e)
      modifies this
      ensures (Contents(), r) == Ingested(settings, old(Contents()), u, e)
    {
      if |u.data| > settings.maxBytes {
        return Err(SizeLimit);
      }
      if u.contentType !in settings.supported {
        return Err(UnsupportedFormat);
      }
      if |u.data| == 0 {
        return Err(EmptyDocument);
      }
      if settings.findsDuplicates {
        var existing := FindByHash(documents, u.org, settings.hash(u.data));
        if existing.Some? {
          return Ok(ReportOf(existing.value, true));
        }
      }
      if e.extracted.None? {
        return Err(ExtractionFailed);
      }
      var text := e.extracted.value;
      if text == "" || Blank(settings.isSpace, text) {
        return Err(EmptyDocument);
      }
      var chunks := ChunkText(settings.chunking, text, e.documentId, e.chunkId);
      if e.vectors.None? {
        return Err(EmbeddingFailed);
      }
      var error := CommitOrRollBack(u, e, chunks, e.vectors.value);
      if error.Some? {
        return Err(error.value);
      }
      return Ok(ReportOf(Record(settings, u, e, chunks), false));
    }

    /** All of the vectors and the records, or no change at all. */
    method CommitOrRollBack(u: Upload, e: Env, chunks: seq<Chunk>, embedded: seq<int>) returns (error: Option<Error>)
      requires Fresh(Contents(), e)
      requires forall i | 0 <= i < |chunks| :: chunks[i].id == e.chunkId(i)
      modifies this
      ensures error == CommitError(e, chunks, embedded)
      ensures error.Some? ==> Contents() == old(Contents())
      ensures error.None? ==> Contents() == Committed(settings, u, e, old(Contents()), chunks, embedded)
    {
      error := Commit(u, e, chunks, embedded);
      if error.Some? {
        vectors := DeleteDocument(e.documentId);
        RollbackRestores(settings, u, e, old(Contents()), chunks, embedded, vectors);
      }
    }

    /** Upsert the pairs in order, then persist; stop at the first failure. */
    method Commit(u: Upload, e: Env, chunks: seq<Chunk>, embedded: seq<int>) returns (error: Option<Error>)
      modifies this
      ensures error == CommitError(e, chunks, embedded)
      ensures documents == if error.None? then old(documents) + [Record(settings, u, e, chunks)] else old(documents)
      ensures error.None? ==>
        vectors == Upserted(settings, u, e, old(vectors), chunks, embedded, Pairs(chunks, embedded))
      ensures error.Some? ==> exists n | 0 <= n <= Pairs(chunks, embedded) ::
        vectors == Upserted(settings, u, e, old(vectors), chunks, embedded, n)
    {
      for i := 0 to Pairs(chunks, embedded)
        invariant e.faultyUpsert.Some? ==> !(e.faultyUpsert.value < i)
        invariant vectors == Upserted(settings, u, e, old(vectors), chunks, embedded, i)
        invariant documents == old(documents)
      {
        if e.faultyUpsert == Some(i) {
          if e.faultyUpsertWrites {
            vectors := vectors[chunks[i].id := Row(settings, u, e, embedded[i])];
            assert vectors == Upserted(settings, u, e, old(vectors), chunks, embedded, i + 1);
          }
          return Some(UpsertFailed);
        }
        vectors := vectors[chunks[i].id := Row(settings, u, e, embedded[i])];
      }
      if e.persistFails {
        return Some(PersistFailed);
      }
      documents := documents + [Record(settings, u, e, chunks)];
      return None;
    }

    /** The vectors without those of one document, row by row. */
    method DeleteDocument(documentId: nat) returns (left: map<nat, VectorRow>)
      ensures left == Without(vectors, documentId)
    {
      left := vectors;
      var rest := vectors.Keys;
      while rest != {}
        invariant rest <= vectors.Keys
        invariant forall k :: k in left <==> k in vectors && (k in rest || vectors[k].documentId != documentId)
        invariant forall k | k in left :: left[k] == vectors[k]
        decreases rest
      {
        var k :| k in rest;
        rest := rest - {k};
        if vectors[k].documentId == documentId {
          left := left - {k};
        }
      }
    }
  }

  /** Which write fails first, if any. */
  function CommitError(e: Env, chunks: seq<Chunk>, embedded: seq<int>): Option<Error>
  {
    if e.faultyUpsert.Some? && e.faultyUpsert.value < Pairs(chunks, embedded) then Some(UpsertFailed)
    else if e.persistFails then Some(PersistFailed)
    else None
  }

  // ----- The pipeline as a function on the stores -----

  /** Generated identifiers are new: the document's, and distinct ones for its chunks. */
  ghost predicate Fresh(st: Stores, e: Env)
  {
    && (forall k | k in st.vectors :: st.vectors[k].documentId != e.documentId)
    && (forall d | d in st.documents :: d.document.id != e.documentId)
    && (forall i: nat :: e.chunkId(i) !in st.vectors)
    && (forall i: nat, j: nat :: e.chunkId(i) == e.chunkId(j) ==> i == j)
  }

  function Committed(s: Settings, u: Upload, e: Env, st: Stores, chunks: seq<Chunk>, embedded: seq<int>): Stores
  {
    Stores(Upserted(s, u, e, st.vectors, chunks, embedded, Pairs(chunks, embedded)),
           st.documents + [Record(s, u, e, chunks)])
  }

  function Ingested(s: Settings, st: Stores, u: Upload, e: Env): (Stores, Result<Report, Error>)
    requires Valid(s.chunking)
  {
    var duplicate := if s.findsDuplicates then FindByHash(st.documents, u.org, s.hash(u.data)) else None;
    if |u.data| > s.maxBytes then (st, Err(SizeLimit))
    else if u.contentType !in s.supported then (st, Err(UnsupportedFormat))
    else if u.data == [] then (st, Err(EmptyDocument))
    else if duplicate.Some? then (st, Ok(ReportOf(duplicate.value, true)))
    else if e.extracted.None? then (st, Err(ExtractionFailed))
    else if Blank(s.isSpace, e.extracted.value) then (st, Err(EmptyDocument))
    else if e.vectors.None? then (st, Err(EmbeddingFailed))
    else
      var chunks := Chunks(s.chunking, e.extracted.value, e.documentId, e.chunkId);
      var error := CommitError(e, chunks, e.vectors.value);
      if error.Some? then (st, Err(error.value))
      else
        (Committed(s, u, e, st, chunks, e.vectors.value), Ok(ReportOf(Record(s, u, e, chunks), false)))
  }

  // ----- Rollback -----

  lemma {:induction false} UpsertedExact(s: Settings, u: Upload, e: Env, vectors: map<nat, VectorRow>,
                                         chunks: seq<Chunk>, embedded: seq<int>, n: nat, k: nat)
    requires n <= |chunks| && n <= |embedded|
    ensures var after := Upserted(s, u, e, vectors, chunks, embedded, n);
      && (k in after <==> k in vectors || exists i | 0 <= i < n :: chunks[i].id == k)
      && ((forall i | 0 <= i < n :: chunks[i].id != k) && k in after ==> after[k] == vectors[k])
      && ((exists i | 0 <= i < n :: chunks[i].id == k) ==> after[k].documentId == e.documentId)
  {
    if n > 0 {
      UpsertedExact(s, u, e, vectors, chunks, embedded, n - 1, k);
    }
  }

  /** Removing the new document's vectors undoes the upserts, however far they got. */
  lemma RollbackRestores(s: Settings, u: Upload, e: Env, st: Stores, chunks: seq<Chunk>, embedded: seq<int>,
                         left: map<nat, VectorRow>)
    requires Fresh(st, e)
    requires forall i | 0 <= i < |chunks| :: chunks[i].id == e.chunkId(i)
    requires exists n | 0 <= n <= Pairs(chunks, embedded) ::
      left == Without(Upserted(s, u, e, st.vectors, chunks, embedded, n), e.documentId)
    ensures left == st.vectors
  {
    var n :| 0 <= n <= Pairs(chunks, embedded)
      && left == Without(Upserted(s, u, e, st.vectors, chunks, embedded, n), e.documentId);
    forall k ensures k in left <==> k in st.vectors
      ensures k in left ==> left[k] == st.vectors[k]
    {
      UpsertedExact(s, u, e, st.vectors, chunks, embedded, n, k);
    }
  }
}
