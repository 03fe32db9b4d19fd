/**
 * Sequential runs of ingestion: what every stored document keeps, when its vectors are
 * complete, and why the same bytes are stored once.
 */
module IngestionRuns {
  import opened Wrappers
  import opened Chunker
  import opened Ingestion

  datatype Call = Call(upload: Upload, env: Env)

  const EMPTY := Stores(map[], [])

  function Exec(s: Settings, st: Stores, calls: seq<Call>): Stores
    requires Valid(s.chunking)
    decreases |calls|
  {
    if calls == [] then st
    else Exec(s, Ingested(s, st, calls[0].upload, calls[0].env).0, calls[1..])
  }

  ghost predicate FreshRun(s: Settings, st: Stores, calls: seq<Call>)
    requires Valid(s.chunking)
    decreases |calls|
  {
    calls == [] ||
    (Fresh(st, calls[0].env) && FreshRun(s, Ingested(s, st, calls[0].upload, calls[0].env).0, calls[1..]))
  }

  /** The call adds a document, rather than failing or finding one. */
  predicate Adds(s: Settings, st: Stores, call: Call)
    requires Valid(s.chunking)
  {
    var r := Ingested(s, st, call.upload, call.env).1;
    r.Ok? && !r.value.duplicate
  }

  // ----- What every reachable state keeps -----

  predicate SameContent(a: Stored, b: Stored)
  {
    a.org == b.org && a.document.contentHash == b.document.contentHash
  }

  ghost predicate Inv(s: Settings, st: Stores)
  {
    && (forall i, j | 0 <= i < j < |st.documents| ::
          && st.documents[i].document.id != st.documents[j].document.id
          && (s.findsDuplicates ==> !SameContent(st.documents[i], st.documents[j])))
    && (forall k | k in st.vectors ::
          exists d :: d in st.documents && d.document.id == st.vectors[k].documentId)
  }

  /** A call either changes nothing or appends one document with the identifiers it was given. */
  lemma AddsOneOrNothing(s: Settings, st: Stores, call: Call)
    requires Valid(s.chunking)
    ensures var after := Ingested(s, st, call.upload, call.env).0;
      if Adds(s, st, call) then
        exists d ::
          && after.documents == st.documents + [d] && d.document.id == call.env.documentId
          && (s.findsDuplicates ==> forall other | other in st.documents :: !SameContent(other, d))
      else after == st
  {
    if Adds(s, st, call) {
      var d := Ingested(s, st, call.upload, call.env).0.documents[|st.documents|];
      assert Ingested(s, st, call.upload, call.env).0.documents == st.documents + [d];
    }
  }

  lemma StepKeepsInv(s: Settings, st: Stores, call: Call)
    requires Valid(s.chunking) && Inv(s, st) && Fresh(st, call.env)
    ensures Inv(s, Ingested(s, st, call.upload, call.env).0)
  {
    AddsOneOrNothing(s, st, call);
    if Adds(s, st, call) {
      var e := call.env;
      var after := Ingested(s, st, call.upload, e).0;
      var chunks := Chunks(s.chunking, e.extracted.value, e.documentId, e.chunkId);
      var last := after.documents[|st.documents|];
      assert last in after.documents;
      forall k | k in after.vectors
        ensures exists d :: d in after.documents && d.document.id == after.vectors[k].documentId
      {
        UpsertedExact(s, call.upload, e, st.vectors, chunks, e.vectors.value, Pairs(chunks, e.vectors.value), k);
        if k in st.vectors && after.vectors[k] == st.vectors[k] {
          var d :| d in st.documents && d.document.id == st.vectors[k].documentId;
          assert d in after.documents;
        }
      }
    }
  }

  lemma {:induction false} RunKeepsInv(s: Settings, st: Stores, calls: seq<Call>)
    requires Valid(s.chunking) && Inv(s, st) && FreshRun(s, st, calls)
    ensures Inv(s, Exec(s, st, calls))
    decreases |calls|
  {
    if calls != [] {
      StepKeepsInv(s, st, calls[0]);
      RunKeepsInv(s, Ingested(s, st, calls[0].upload, calls[0].env).0, calls[1..]);
    }
  }

  // ----- What a call answers -----

  ghost predicate Acceptable(s: Settings, u: Upload)
  {
    |u.data| <= s.maxBytes && u.contentType in s.supported && u.data != []
  }

  ghost predicate Known(s: Settings, st: Stores, u: Upload)
  {
    s.findsDuplicates
    && exists d | d in st.documents :: d.org == u.org && d.document.contentHash == s.hash(u.data)
  }

  /** Extraction gave a text with something in it to read. */
  ghost predicate Readable(s: Settings, e: Env)
  {
    e.extracted.Some? && exists ch | ch in e.extracted.value :: !s.isSpace(ch)
  }

  /** The first thing that is wrong is reported, and nothing is stored. */
  lemma RefusedExactly(s: Settings, st: Stores, u: Upload, e: Env)
    requires Valid(s.chunking)
    ensures var (after, r) := Ingested(s, st, u, e); var isNew := Acceptable(s, u) && !Known(s, st, u);
      && (r.Err? ==> after == st)
      && (r == Err(SizeLimit) <==> |u.data| > s.maxBytes)
      && (r == Err(UnsupportedFormat) <==> |u.data| <= s.maxBytes && u.contentType !in s.supported)
      && (r == Err(ExtractionFailed) <==> isNew && e.extracted.None?)
      && (r == Err(EmptyDocument) <==>
            (|u.data| <= s.maxBytes && u.contentType in s.supported && u.data == [])
            || (isNew && e.extracted.Some? && !Readable(s, e)))
      && (r == Err(EmbeddingFailed) <==> isNew && Readable(s, e) && e.vectors.None?)
      && (r.Err? && r.error in {UpsertFailed, PersistFailed} ==> isNew && Readable(s, e) && e.vectors.Some?)
      && (r.Ok? && r.value.duplicate <==> Acceptable(s, u) && Known(s, st, u))
  {
  }

  /** Late faults: a failing upsert among the pairs comes first, then a failing persist. */
  lemma LateFaultsExactly(s: Settings, st: Stores, u: Upload, e: Env)
    requires Valid(s.chunking) && Acceptable(s, u) && !Known(s, st, u) && Readable(s, e) && e.vectors.Some?
    ensures var r := Ingested(s, st, u, e).1;
      var chunks, vectors := |Chunks(s.chunking, e.extracted.value, e.documentId, e.chunkId)|, |e.vectors.value|;
      var upsertFails := e.faultyUpsert.Some? && e.faultyUpsert.value < chunks && e.faultyUpsert.value < vectors;
      && (r == Err(UpsertFailed) <==> upsertFails)
      && (r == Err(PersistFailed) <==> !upsertFails && e.persistFails)
      && (r.Ok? <==> !upsertFails && !e.persistFails)
  {
  }

  /** A stored document is the upload's, and its chunks put together are the extracted text. */
  lemma StoredDocument(s: Settings, st: Stores, u: Upload, e: Env)
    requires Valid(s.chunking) && Adds(s, st, Call(u, e))
    ensures var (after, r) := Ingested(s, st, u, e); var n := |st.documents|;
      && |after.documents| == n + 1 && after.documents[..n] == st.documents
      && var d := after.documents[n];
         && d.org == u.org && d.document.id == e.documentId && d.document.contentHash == s.hash(u.data)
         && d.document.filename == u.filename && d.document.contentType == u.contentType
         && d.document.size == |u.data| && d.document.createdAt == e.now && d.document.status == "ingested"
         && Reconstruct(d.chunks) == e.extracted.value
         && (forall i | 0 <= i < |d.chunks| :: d.chunks[i].id == e.chunkId(i) && d.chunks[i].documentId == e.documentId)
         && r == Ok(Report(e.documentId, u.filename, |d.chunks|, "ingested", false))
  {
    hide Chunks, Reconstruct, Upserted, CommitError, FindByHash;
    RoundTrip(s.chunking, e.extracted.value, e.documentId, e.chunkId);
    ChunksNamed(s.chunking, e.extracted.value, e.documentId, e.chunkId);
  }

  lemma ChunksNamed(c: Config, text: string, documentId: nat, newId: nat -> nat)
    requires Valid(c)
    ensures var chunks := Chunks(c, text, documentId, newId);
      forall i | 0 <= i < |chunks| :: chunks[i].id == newId(i) && chunks[i].documentId == documentId
  {
  }

  /** Each chunk that was paired has its own vector, under the document, and under the organization where kept. */
  lemma StoredRows(s: Settings, st: Stores, u: Upload, e: Env, i: nat)
    requires Valid(s.chunking) && Fresh(st, e) && Adds(s, st, Call(u, e))
    requires var chunks := Chunks(s.chunking, e.extracted.value, e.documentId, e.chunkId);
      i < |chunks| && i < |e.vectors.value|
    ensures var after := Ingested(s, st, u, e).0; var id := e.chunkId(i);
      id in after.vectors
      && after.vectors[id] == VectorRow(e.documentId, if s.tenantUpsert then Some(u.org) else None, e.vectors.value[i])
  {
    var chunks := Chunks(s.chunking, e.extracted.value, e.documentId, e.chunkId);
    RowOf(s, u, e, st.vectors, chunks, e.vectors.value, Pairs(chunks, e.vectors.value), i);
  }

  lemma {:induction false} RowOf(s: Settings, u: Upload, e: Env, vectors: map<nat, VectorRow>,
                                 chunks: seq<Chunk>, embedded: seq<int>, n: nat, i: nat)
    requires i < n <= |chunks| && n <= |embedded|
    requires forall j, k | 0 <= j < k < |chunks| :: chunks[j].id != chunks[k].id
    ensures var after := Upserted(s, u, e, vectors, chunks, embedded, n);
      chunks[i].id in after
      && after[chunks[i].id] == VectorRow(e.documentId, if s.tenantUpsert then Some(u.org) else None, embedded[i])
  {
    if i < n - 1 {
      RowOf(s, u, e, vectors, chunks, embedded, n - 1, i);
    }
  }

  // ----- When a document's vectors are complete -----

  function VectorIds(st: Stores, documentId: nat): set<nat>
  {
    set k | k in st.vectors && st.vectors[k].documentId == documentId
  }

  function ChunkIds(chunks: seq<Chunk>): set<nat>
  {
    set i | 0 <= i < |chunks| :: chunks[i].id
  }

  /** Every stored document has a vector for each of its chunks, and no other. */
  ghost predicate Complete(st: Stores)
  {
    forall d | d in st.documents :: VectorIds(st, d.document.id) == ChunkIds(d.chunks)
  }

  /** A call that gets as far as storing has at least one vector per chunk. */
  predicate Covered(s: Settings, st: Stores, call: Call)
    requires Valid(s.chunking)
  {
    var e := call.env;
    Adds(s, st, call) ==>
      |Chunks(s.chunking, e.extracted.value, e.documentId, e.chunkId)| <= |e.vectors.value|
  }

  predicate AllCovered(s: Settings, st: Stores, calls: seq<Call>)
    requires Valid(s.chunking)
    decreases |calls|
  {
    calls == [] ||
    (Covered(s, st, calls[0]) && AllCovered(s, Ingested(s, st, calls[0].upload, calls[0].env).0, calls[1..]))
  }

  /** Some, but not all, chunks of a document have fewer identifiers. */
  lemma PrefixIds(chunks: seq<Chunk>, n: nat)
    requires n <= |chunks|
    requires forall i, j | 0 <= i < j < |chunks| :: chunks[i].id != chunks[j].id
    ensures ChunkIds(chunks[..n]) == ChunkIds(chunks) <==> n == |chunks|
  {
    if n < |chunks| {
      assert chunks[n].id in ChunkIds(chunks);
      assert chunks[n].id !in ChunkIds(chunks[..n]);
    } else {
      assert chunks[..n] == chunks;
    }
  }

  /** The written rows of the new document are those of the chunks paired with a vector. */
  lemma WrittenIds(s: Settings, u: Upload, e: Env, st: Stores, chunks: seq<Chunk>, embedded: seq<int>)
    requires Fresh(st, e)
    ensures VectorIds(Committed(s, u, e, st, chunks, embedded), e.documentId)
         == ChunkIds(chunks[..Pairs(chunks, embedded)])
  {
    var n := Pairs(chunks, embedded);
    var paired := chunks[..n];
    forall k ensures k in VectorIds(Committed(s, u, e, st, chunks, embedded), e.documentId) <==> k in ChunkIds(paired) {
      UpsertedExact(s, u, e, st.vectors, chunks, embedded, n, k);
      assert (exists i | 0 <= i < n :: chunks[i].id == k) <==> (exists i | 0 <= i < |paired| :: paired[i].id == k);
    }
  }

  /**
   * The new document has vectors for exactly the chunks that were paired with one, so for all of its
   * chunks exactly when the provider returned at least as many vectors.
   */
  lemma PairedIds(s: Settings, st: Stores, call: Call)
    requires Valid(s.chunking) && Fresh(st, call.env) && Adds(s, st, call)
    ensures var e := call.env;
      var after := Ingested(s, st, call.upload, e).0;
      var chunks := Chunks(s.chunking, e.extracted.value, e.documentId, e.chunkId);
      && VectorIds(after, e.documentId) == ChunkIds(chunks[..Pairs(chunks, e.vectors.value)])
      && (VectorIds(after, e.documentId) == ChunkIds(chunks) <==> |chunks| <= |e.vectors.value|)
  {
    var e := call.env;
    var chunks := Chunks(s.chunking, e.extracted.value, e.documentId, e.chunkId);
    WrittenIds(s, call.upload, e, st, chunks, e.vectors.value);
    PrefixIds(chunks, Pairs(chunks, e.vectors.value));
  }

  /** Vectors of other documents stay where they are. */
  lemma OtherVectorsKept(s: Settings, st: Stores, call: Call, documentId: nat)
    requires Valid(s.chunking) && Fresh(st, call.env) && documentId != call.env.documentId
    ensures VectorIds(Ingested(s, st, call.upload, call.env).0, documentId) == VectorIds(st, documentId)
  {
    AddsOneOrNothing(s, st, call);
    if Adds(s, st, call) {
      var e := call.env;
      var chunks := Chunks(s.chunking, e.extracted.value, e.documentId, e.chunkId);
      forall k
        ensures k in VectorIds(Ingested(s, st, call.upload, e).0, documentId) <==> k in VectorIds(st, documentId)
      {
        UpsertedExact(s, call.upload, e, st.vectors, chunks, e.vectors.value, Pairs(chunks, e.vectors.value), k);
      }
    }
  }

  lemma StepCompleteExactly(s: Settings, st: Stores, call: Call)
    requires Valid(s.chunking) && Fresh(st, call.env)
    ensures Complete(Ingested(s, st, call.upload, call.env).0) <==> Complete(st) && Covered(s, st, call)
  {
    AddsOneOrNothing(s, st, call);
    if Adds(s, st, call) {
      var e := call.env;
      var after := Ingested(s, st, call.upload, e).0;
      PairedIds(s, st, call);
      var last := after.documents[|st.documents|];
      assert last in after.documents;
      forall d | d in st.documents
        ensures d in after.documents && VectorIds(after, d.document.id) == VectorIds(st, d.document.id)
      {
        OtherVectorsKept(s, st, call, d.document.id);
      }
    }
  }

  /** A run leaves every document complete exactly when no call was short of vectors. */
  lemma {:induction false} RunCompleteExactly(s: Settings, st: Stores, calls: seq<Call>)
    requires Valid(s.chunking) && FreshRun(s, st, calls)
    ensures Complete(Exec(s, st, calls)) <==> Complete(st) && AllCovered(s, st, calls)
    decreases |calls|
  {
    if calls != [] {
      StepCompleteExactly(s, st, calls[0]);
      RunCompleteExactly(s, Ingested(s, st, calls[0].upload, calls[0].env).0, calls[1..]);
    }
  }

  /** From empty stores. */
  lemma ReachableConsistent(s: Settings, calls: seq<Call>)
    requires Valid(s.chunking) && FreshRun(s, EMPTY, calls)
    ensures Inv(s, Exec(s, EMPTY, calls))
    ensures Complete(Exec(s, EMPTY, calls)) <==> AllCovered(s, EMPTY, calls)
  {
    RunKeepsInv(s, EMPTY, calls);
    RunCompleteExactly(s, EMPTY, calls);
  }

  // ----- Failed and repeated calls leave no trace -----

  /** The calls of a run that added a document. */
  function Effective(s: Settings, st: Stores, calls: seq<Call>): seq<Call>
    requires Valid(s.chunking)
    decreases |calls|
  {
    if calls == [] then []
    else
      var rest := Effective(s, Ingested(s, st, calls[0].upload, calls[0].env).0, calls[1..]);
      if Adds(s, st, calls[0]) then [calls[0]] + rest else rest
  }

  /** The other calls could be deleted from the run; the rest stored one document each, in order. */
  lemma {:induction false} OnlyEffectiveCalls(s: Settings, st: Stores, calls: seq<Call>)
    requires Valid(s.chunking)
    ensures var kept := Effective(s, st, calls);
      var after := Exec(s, st, calls);
      && after == Exec(s, st, kept)
      && |after.documents| == |st.documents| + |kept|
      && st.documents == after.documents[..|st.documents|]
      && forall i | 0 <= i < |kept| :: after.documents[|st.documents| + i].document.id == kept[i].env.documentId
    decreases |calls|
  {
    hide Ingested;
    if calls != [] {
      var next := Ingested(s, st, calls[0].upload, calls[0].env).0;
      AddsOneOrNothing(s, st, calls[0]);
      OnlyEffectiveCalls(s, next, calls[1..]);
      var rest := Effective(s, next, calls[1..]);
      var after := Exec(s, st, calls);
      if Adds(s, st, calls[0]) {
        var kept := [calls[0]] + rest;
        assert kept[1..] == rest;
        forall i | 0 <= i < |kept|
          ensures after.documents[|st.documents| + i].document.id == kept[i].env.documentId
        {
          if i > 0 {
            assert after.documents[|next.documents| + (i - 1)].document.id == rest[i - 1].env.documentId;
          } else {
            assert after.documents[|st.documents|] == next.documents[|st.documents|];
          }
        }
      }
    }
  }

  // ----- Re-uploading the same bytes -----

  lemma {:induction false} FoundStaysFound(before: seq<Stored>, more: seq<Stored>, org: nat, hash: nat)
    ensures FindByHash(before, org, hash).Some? ==>
      FindByHash(before + more, org, hash) == FindByHash(before, org, hash)
    ensures FindByHash(before, org, hash).None? ==>
      FindByHash(before + more, org, hash) == FindByHash(more, org, hash)
  {
    if before == [] {
      assert before + more == more;
    } else {
      assert (before + more)[1..] == before[1..] + more;
      FoundStaysFound(before[1..], more, org, hash);
    }
  }

  /** After a successful call the document it reported is the one these bytes lead to. */
  lemma SuccessIsFound(s: Settings, st: Stores, call: Call)
    requires Valid(s.chunking) && s.findsDuplicates
    requires Ingested(s, st, call.upload, call.env).1.Ok?
    ensures var (after, r) := Ingested(s, st, call.upload, call.env);
      var found := FindByHash(after.documents, call.upload.org, s.hash(call.upload.data));
      found.Some? && ReportOf(found.value, true) == r.value.(duplicate := true)
  {
    AddsOneOrNothing(s, st, call);
    if Adds(s, st, call) {
      var after := Ingested(s, st, call.upload, call.env).0;
      var d := after.documents[|st.documents|];
      FoundStaysFound(st.documents, [d], call.upload.org, s.hash(call.upload.data));
    }
  }

  /**
   * Once bytes have been ingested for an organization, ingesting them again at any later point, under
   * any name and any supported type and whatever the world answers, reports that document and changes nothing.
   */
  lemma ReuploadFindsFirst(s: Settings, st: Stores, first: Call, between: seq<Call>, again: Call)
    requires Valid(s.chunking) && s.findsDuplicates
    requires Ingested(s, st, first.upload, first.env).1.Ok?
    requires again.upload.data == first.upload.data && again.upload.org == first.upload.org
    requires again.upload.contentType in s.supported
    ensures var (mid, r) := Ingested(s, st, first.upload, first.env);
      var later := Exec(s, mid, between);
      Ingested(s, later, again.upload, again.env) == (later, Ok(r.value.(duplicate := true)))
  {
    var mid := Ingested(s, st, first.upload, first.env).0;
    var later := Exec(s, mid, between);
    SuccessIsFound(s, st, first);
    OnlyEffectiveCalls(s, mid, between);
    var more := later.documents[|mid.documents|..];
    assert later.documents == mid.documents + more;
    FoundStaysFound(mid.documents, more, first.upload.org, s.hash(first.upload.data));
  }

  /**
   * The port is needed: without it, a second upload that meets no fault stores another document
   * with the same content.
   */
  lemma WithoutThePortStoredTwice(s: Settings, st: Stores, first: Call, again: Call)
    requires Valid(s.chunking) && !s.findsDuplicates
    requires Adds(s, st, first)
    requires again.upload == first.upload
    requires again.env == first.env.(documentId := again.env.documentId, chunkId := again.env.chunkId)
    ensures var later := Exec(s, st, [first, again]);
      var n := |st.documents|;
      && |later.documents| == n + 2
      && SameContent(later.documents[n], later.documents[n + 1])
      && later.documents[n + 1].document.id == again.env.documentId
  {
    var mid := Ingested(s, st, first.upload, first.env).0;
    assert [first, again][1..] == [again];
    assert Exec(s, st, [first, again]) == Exec(s, mid, [again]);
    assert [again][1..] == [];
    assert Exec(s, mid, [again]) == Ingested(s, mid, again.upload, again.env).0;
  }
}
