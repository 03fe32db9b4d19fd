/**
 * The sliding-window chunker: overlapping pieces of bounded length, with the overlap
 * recorded so that the text can be put together again.
 *
 * Chunk identifiers come from a generator `newId`; the text is already normalized.
 */
module Chunker {
  import opened Arithmetic
  import opened Wrappers

  datatype Config = Config(max: nat, overlap: nat)

  datatype ConfigError = MaxNotPositive | OverlapNegative | OverlapTooLarge

  datatype Chunk = Chunk(id: nat, documentId: nat, index: nat, content: string, overlapPrev: nat)

  predicate Valid(c: Config)
  {
    c.overlap < c.max
  }

  function MakeConfig(max: int, overlap: int): (r: Result<Config, ConfigError>)
    ensures r.Ok? <==> 0 <= overlap < max
    ensures r == Err(MaxNotPositive) <==> max <= 0
    ensures r == Err(OverlapNegative) <==> max > 0 && overlap < 0
    ensures r == Err(OverlapTooLarge) <==> 0 < max <= overlap
    ensures r.Ok? ==> Valid(r.value) && r.value.max == max && r.value.overlap == overlap
  {
    if max <= 0 then Err(MaxNotPositive)
    else if overlap < 0 then Err(OverlapNegative)
    else if overlap >= max then Err(OverlapTooLarge)
    else Ok(Config(max, overlap))
  }

  function Advance(c: Config): nat
    requires Valid(c)
  {
    c.max - c.overlap
  }

  /** Where chunk `k` begins: one step per chunk before it. */
  function Begin(c: Config, k: nat): nat
    requires Valid(c)
  {
    if k == 0 then 0 else Begin(c, k - 1) + Advance(c)
  }

  lemma {:induction false} BeginIsProduct(c: Config, k: nat)
    requires Valid(c)
    ensures Begin(c, k) == k * Advance(c)
  {
    if k > 0 {
      BeginIsProduct(c, k - 1);
      assert k * Advance(c) == (k - 1) * Advance(c) + Advance(c);
    }
  }

  lemma {:induction false} BeginAscends(c: Config, j: nat, k: nat)
    requires Valid(c) && j <= k
    ensures Begin(c, j) + (k - j) <= Begin(c, k)
  {
    if j < k {
      BeginAscends(c, j, k - 1);
    }
  }

  function Stop(c: Config, n: nat, k: nat): nat
    requires Valid(c)
  {
    if Begin(c, k) + c.max <= n then Begin(c, k) + c.max else n
  }

  /** The index of the last chunk of a text of length `n`: one step until the rest fits. */
  function LastIndex(c: Config, n: nat): nat
    requires Valid(c)
    decreases n
  {
    if n <= c.max then 0 else 1 + LastIndex(c, n - Advance(c))
  }

  function Piece(c: Config, text: string, documentId: nat, newId: nat -> nat, k: nat): Chunk
    requires Valid(c) && Begin(c, k) <= Stop(c, |text|, k)
  {
    Chunk(newId(k), documentId, k, text[Begin(c, k)..Stop(c, |text|, k)], if k == 0 then 0 else c.overlap)
  }

  /** The position of the last chunk: the first one that reaches the end. */
  lemma {:induction false} LastReaches(c: Config, n: nat)
    requires Valid(c)
    ensures var last := LastIndex(c, n);
      && Begin(c, last) + c.max >= n
      && (last > 0 ==> Begin(c, last) + c.overlap < n)
    decreases n
  {
    if n > c.max {
      LastReaches(c, n - Advance(c));
    }
  }

  lemma {:induction false} LastIs(c: Config, n: nat, k: nat)
    requires Valid(c) && Begin(c, k) + c.max >= n && (k > 0 ==> Begin(c, k) + c.overlap < n)
    ensures LastIndex(c, n) == k
    decreases n
  {
    if n > c.max {
      LastIs(c, n - Advance(c), k - 1);
    } else {
      BeginAscends(c, if k > 0 then 1 else 0, k);
    }
  }

  /** Every chunk before the last is full, and every chunk brings something new. */
  lemma Within(c: Config, n: nat, k: nat)
    requires Valid(c) && k <= LastIndex(c, n)
    ensures k < LastIndex(c, n) ==> Begin(c, k) + c.max < n
    ensures Begin(c, k) <= Stop(c, n, k)
    ensures k > 0 ==> Begin(c, k) + c.overlap < Stop(c, n, k)
    ensures k > 0 ==> Begin(c, k) == Begin(c, k - 1) + Advance(c)
    ensures k == LastIndex(c, n) ==> Stop(c, n, k) == n
  {
    var last := LastIndex(c, n);
    LastReaches(c, n);
    if k < last {
      BeginAscends(c, k + 1, last);
    } else if k > 0 {
      BeginAscends(c, k - 1, k);
    }
  }

  function Chunks(c: Config, text: string, documentId: nat, newId: nat -> nat): (r: seq<Chunk>)
    requires Valid(c)
    ensures |r| == LastIndex(c, |text|) + 1
    ensures forall k {:trigger r[k]} | 0 <= k < |r| ::
      Begin(c, k) <= Stop(c, |text|, k) && r[k] == Piece(c, text, documentId, newId, k)
  {
    forall k: nat | k <= LastIndex(c, |text|) ensures Begin(c, k) <= Stop(c, |text|, k) {
      Within(c, |text|, k);
    }
    seq(LastIndex(c, |text|) + 1, k requires 0 <= k <= LastIndex(c, |text|) => Piece(c, text, documentId, newId, k))
  }

  /** The chunk the loop produces at its start, and where that chunk stops. */
  lemma ChunkAt(c: Config, text: string, documentId: nat, newId: nat -> nat, k: nat)
    requires Valid(c) && k <= LastIndex(c, |text|)
    ensures Begin(c, k) <= |text|
    ensures var b := Begin(c, k); var end := if k < LastIndex(c, |text|) then b + c.max else |text|;
      && b <= end <= |text| && (k > 0 ==> b + c.overlap < end) && (k == LastIndex(c, |text|) ==> |text| <= b + c.max)
      && (k < LastIndex(c, |text|) ==> b + c.max < |text| && Begin(c, k + 1) == b + Advance(c))
      && Chunks(c, text, documentId, newId)[k]
           == Chunk(newId(k), documentId, k, text[b..end], if k == 0 then 0 else c.overlap)
  {
    Within(c, |text|, k);
    LastReaches(c, |text|);
  }

  lemma FirstBegins(c: Config)
    requires Valid(c)
    ensures Begin(c, 0) == 0
  {
  }

  lemma OneChunk(c: Config, text: string, documentId: nat, newId: nat -> nat)
    requires Valid(c) && |text| <= c.max
    ensures Chunks(c, text, documentId, newId) == [Chunk(newId(0), documentId, 0, text, 0)]
  {
    assert text[0..|text|] == text;
  }

  method ChunkText(c: Config, text: string, documentId: nat, newId: nat -> nat) returns (chunks: seq<Chunk>)
    requires Valid(c)
    ensures chunks == Chunks(c, text, documentId, newId)
  {
    hide Begin, LastIndex, Chunks;
    var n, advance := |text|, c.max - c.overlap;
    if n <= c.max {
      OneChunk(c, text, documentId, newId);
      return [Chunk(newId(0), documentId, 0, text, 0)];
    }
    chunks := [];
    FirstBegins(c);
    ghost var all := Chunks(c, text, documentId, newId);
    var start, index, prevEnd := 0, 0, 0;
    while true
      invariant index <= LastIndex(c, n) && start == Begin(c, index)
      invariant chunks == all[..index]
      invariant index > 0 ==> prevEnd == start + c.overlap
      decreases LastIndex(c, n) - index
    {
      ChunkAt(c, text, documentId, newId, index);
      var end := if start + c.max <= n then start + c.max else n;
      var overlapPrev := if index == 0 then 0 else prevEnd - start;
      chunks := chunks + [Chunk(newId(index), documentId, index, text[start..end], overlapPrev)];
      assert all[..index + 1] == all[..index] + [all[index]];
      if end == n {
        LastIs(c, n, index);
        assert all[..index + 1] == all;
        break;
      }
      if index == LastIndex(c, n) {
        assert false;
      }
      ChunkAt(c, text, documentId, newId, index + 1);
      prevEnd := end;
      start := start + advance;
      index := index + 1;
    }
  }

  // ----- The early return is what the loop would produce -----

  /** The loop, run on any text. */
  function LoopFrom(c: Config, text: string, documentId: nat, newId: nat -> nat,
                    start: nat, index: nat, prevEnd: nat): seq<Chunk>
    requires Valid(c) && start <= |text| && (index > 0 ==> start <= prevEnd)
    decreases |text| - start
  {
    var end := if start + c.max <= |text| then start + c.max else |text|;
    var here := Chunk(newId(index), documentId, index, text[start..end], if index == 0 then 0 else prevEnd - start);
    if end == |text| then [here]
    else [here] + LoopFrom(c, text, documentId, newId, start + Advance(c), index + 1, end)
  }

  lemma LoopTurn(c: Config, text: string, documentId: nat, newId: nat -> nat, start: nat, index: nat, prevEnd: nat)
    requires Valid(c) && start + c.max < |text| && (index > 0 ==> start <= prevEnd)
    ensures LoopFrom(c, text, documentId, newId, start, index, prevEnd)
         == [Chunk(newId(index), documentId, index, text[start..start + c.max],
                   if index == 0 then 0 else prevEnd - start)]
            + LoopFrom(c, text, documentId, newId, start + Advance(c), index + 1, start + c.max)
  {
  }

  lemma LoopEnds(c: Config, text: string, documentId: nat, newId: nat -> nat, start: nat, index: nat, prevEnd: nat)
    requires Valid(c) && start <= |text| <= start + c.max && (index > 0 ==> start <= prevEnd)
    ensures LoopFrom(c, text, documentId, newId, start, index, prevEnd)
         == [Chunk(newId(index), documentId, index, text[start..], if index == 0 then 0 else prevEnd - start)]
  {
    assert text[start..|text|] == text[start..];
  }

  lemma {:induction false} LoopIsChunks(c: Config, text: string, documentId: nat, newId: nat -> nat, k: nat)
    requires Valid(c) && k <= LastIndex(c, |text|)
    requires Begin(c, k) <= |text|
    ensures LoopFrom(c, text, documentId, newId, Begin(c, k), k, Begin(c, k) + c.overlap)
         == Chunks(c, text, documentId, newId)[k..]
    decreases LastIndex(c, |text|) - k
  {
    hide LoopFrom, Begin, LastIndex, Chunks;
    var n, all := |text|, Chunks(c, text, documentId, newId);
    var start := Begin(c, k);
    ChunkAt(c, text, documentId, newId, k);
    assert all[k..] == [all[k]] + all[k + 1..];
    if k < LastIndex(c, n) {
      ChunkAt(c, text, documentId, newId, k + 1);
      LoopTurn(c, text, documentId, newId, start, k, start + c.overlap);
      LoopIsChunks(c, text, documentId, newId, k + 1);
    } else {
      LoopEnds(c, text, documentId, newId, start, k, start + c.overlap);
      assert text[start..n] == text[start..];
    }
  }

  lemma EarlyReturnIsLoop(c: Config, text: string, documentId: nat, newId: nat -> nat)
    requires Valid(c) && |text| <= c.max
    ensures LoopFrom(c, text, documentId, newId, 0, 0, 0) == Chunks(c, text, documentId, newId)
    ensures Chunks(c, text, documentId, newId) == [Chunk(newId(0), documentId, 0, text, 0)]
  {
    assert text[0..|text|] == text;
  }

  // ----- Size, overlap, reconstruction -----

  lemma SharedSlice(text: string, a: nat, b: nat, a2: nat, b2: nat, shared: nat)
    requires a <= b <= |text| && a2 <= b2 <= |text| && a <= a2 && a2 + shared == b <= b2
    ensures text[a2..b2][..shared] == text[a..b][b - a - shared..]
    ensures text[..b] + text[a2..b2][shared..] == text[..b2]
  {
  }

  /** Bounded length; after the first, the recorded overlap is the previous chunk's tail and less than all of it. */
  lemma ChunkShape(c: Config, text: string, documentId: nat, newId: nat -> nat, k: nat)
    requires Valid(c) && k <= LastIndex(c, |text|)
    ensures var chunks := Chunks(c, text, documentId, newId);
      && |chunks[k].content| <= c.max && chunks[k].index == k
      && chunks[k].id == newId(k) && chunks[k].documentId == documentId
      && (k > 0 ==>
            var prev, here := chunks[k - 1].content, chunks[k].content;
            && chunks[k].overlapPrev == c.overlap
            && c.overlap < |here| && c.overlap <= |prev|
            && here[..c.overlap] == prev[|prev| - c.overlap..])
  {
    ChunkAt(c, text, documentId, newId, k);
    if k > 0 {
      TailShared(c, text, documentId, newId, k);
    }
  }

  /** A later chunk begins with the end of the one before it, and goes on. */
  lemma TailShared(c: Config, text: string, documentId: nat, newId: nat -> nat, k: nat)
    requires Valid(c) && 0 < k <= LastIndex(c, |text|)
    ensures var chunks := Chunks(c, text, documentId, newId);
      var prev, here := chunks[k - 1].content, chunks[k].content;
      c.overlap < |here| && c.overlap <= |prev| && here[..c.overlap] == prev[|prev| - c.overlap..]
  {
    hide Chunks, LastIndex, Begin;
    ChunkAt(c, text, documentId, newId, k - 1);
    ChunkAt(c, text, documentId, newId, k);
    var a, b := Begin(c, k - 1), Begin(c, k);
    var end := if k < LastIndex(c, |text|) then b + c.max else |text|;
    SharedSlice(text, a, a + c.max, b, end, c.overlap);
  }

  /** The chunks put together, each without its recorded overlap. */
  function Reconstruct(chunks: seq<Chunk>): string
  {
    if chunks == [] then ""
    else
      var last := chunks[|chunks| - 1];
      Reconstruct(chunks[..|chunks| - 1])
        + (if last.overlapPrev <= |last.content| then last.content[last.overlapPrev..] else "")
  }

  lemma ReconstructSnoc(chunks: seq<Chunk>, last: Chunk)
    requires last.overlapPrev <= |last.content|
    ensures Reconstruct(chunks + [last]) == Reconstruct(chunks) + last.content[last.overlapPrev..]
  {
    assert (chunks + [last])[..|chunks|] == chunks;
  }

  /** A chunk that begins `overlap` characters before what the others rebuild extends it to its own end. */
  lemma AppendsSlice(chunks: seq<Chunk>, last: Chunk, text: string, begin: nat, end: nat)
    requires begin + last.overlapPrev <= end <= |text| && last.content == text[begin..end]
    requires Reconstruct(chunks) == text[..begin + last.overlapPrev]
    ensures Reconstruct(chunks + [last]) == text[..end]
  {
    ReconstructSnoc(chunks, last);
  }

  lemma {:induction false} ReconstructPrefix(c: Config, text: string, documentId: nat, newId: nat -> nat, k: nat)
    requires Valid(c) && k <= LastIndex(c, |text|)
    ensures var end := if k < LastIndex(c, |text|) then Begin(c, k) + c.max else |text|;
      end <= |text| && Reconstruct(Chunks(c, text, documentId, newId)[..k + 1]) == text[..end]
  {
    hide Chunks, LastIndex, Begin, Reconstruct;
    var chunks := Chunks(c, text, documentId, newId);
    var end := if k < LastIndex(c, |text|) then Begin(c, k) + c.max else |text|;
    ChunkAt(c, text, documentId, newId, k);
    if k > 0 {
      ChunkAt(c, text, documentId, newId, k - 1);
      ReconstructPrefix(c, text, documentId, newId, k - 1);
    } else {
      FirstBegins(c);
      NothingRebuilt(chunks[..0]);
    }
    AppendsSlice(chunks[..k], chunks[k], text, Begin(c, k), end);
    assert chunks[..k + 1] == chunks[..k] + [chunks[k]];
  }

  lemma NothingRebuilt(chunks: seq<Chunk>)
    requires chunks == []
    ensures Reconstruct(chunks) == ""
  {
  }

  /** Dropping the recorded overlaps gives back exactly the text. */
  lemma RoundTrip(c: Config, text: string, documentId: nat, newId: nat -> nat)
    requires Valid(c)
    ensures Reconstruct(Chunks(c, text, documentId, newId)) == text
  {
    var chunks, last := Chunks(c, text, documentId, newId), LastIndex(c, |text|);
    ReconstructPrefix(c, text, documentId, newId, last);
    assert chunks[..last + 1] == chunks && text[..|text|] == text;
  }

  // ----- How many chunks, and how many hold a position -----

  /** One chunk, and one more for each step still needed to reach the end. */
  lemma ChunkCount(c: Config, text: string, documentId: nat, newId: nat -> nat)
    requires Valid(c) && |text| > c.max
    ensures var count := |Chunks(c, text, documentId, newId)|;
      && count == 1 + CeilDiv(|text| - c.max, Advance(c))
      && (count - 2) * Advance(c) + c.max < |text| <= (count - 1) * Advance(c) + c.max
  {
    var last := LastIndex(c, |text|);
    LastReaches(c, |text|);
    BeginIsProduct(c, last);
    BeginIsProduct(c, last - 1);
    CeilIs(|text| - c.max, Advance(c), last);
  }

  predicate Holds(c: Config, n: nat, k: nat, p: nat)
    requires Valid(c)
  {
    k <= LastIndex(c, n) && Begin(c, k) <= p < Stop(c, n, k)
  }

  /**
   * The chunks that hold a position are consecutive: at least one, and no more than the
   * steps that fit in a window, rounded up.
   */
  lemma Coverage(c: Config, n: nat, p: nat) returns (first: nat, last: nat)
    requires Valid(c) && p < n
    ensures first <= last && last - first + 1 <= CeilDiv(c.max, Advance(c))
    ensures forall k: nat :: Holds(c, n, k, p) <==> first <= k <= last
  {
    LastReaches(c, n);
    last := LastFrom(c, p, LastIndex(c, n));
    first := FirstOver(c, p, last);
    forall k: nat ensures Holds(c, n, k, p) <==> first <= k <= last {
      HoldsBetween(c, n, p, first, last, k);
    }
    CoverageWidth(c, first, last, p);
  }

  /** The last chunk, among those up to `k`, that begins at `p` or before. */
  lemma {:induction false} LastFrom(c: Config, p: nat, k: nat) returns (last: nat)
    requires Valid(c) && p < Begin(c, k) + c.max
    ensures last <= k && Begin(c, last) <= p < Begin(c, last) + c.max
    ensures last < k ==> p < Begin(c, last + 1)
  {
    if Begin(c, k) <= p {
      last := k;
    } else {
      last := LastFrom(c, p, k - 1);
    }
  }

  /** The first chunk whose window reaches past `p`. */
  lemma {:induction false} FirstOver(c: Config, p: nat, k: nat) returns (first: nat)
    requires Valid(c) && p < Begin(c, k) + c.max
    ensures first <= k && p < Begin(c, first) + c.max
    ensures first > 0 ==> Begin(c, first - 1) + c.max <= p
  {
    if k > 0 && p < Begin(c, k - 1) + c.max {
      first := FirstOver(c, p, k - 1);
    } else {
      first := k;
    }
  }

  lemma HoldsBetween(c: Config, n: nat, p: nat, first: nat, last: nat, k: nat)
    requires Valid(c) && p < n
    requires last <= LastIndex(c, n) && Begin(c, last) <= p
    requires last < LastIndex(c, n) ==> p < Begin(c, last + 1)
    requires p < Begin(c, first) + c.max && (first > 0 ==> Begin(c, first - 1) + c.max <= p)
    ensures Holds(c, n, k, p) <==> first <= k <= last
  {
    if k <= last {
      BeginAscends(c, k, last);
    } else if last < LastIndex(c, n) {
      BeginAscends(c, last + 1, k);
    }
    if first <= k {
      BeginAscends(c, first, k);
    } else {
      BeginAscends(c, k, first - 1);
    }
  }

  lemma CoverageWidth(c: Config, first: nat, last: nat, p: nat)
    requires Valid(c) && first <= last && Begin(c, last) <= p < Begin(c, first) + c.max
    ensures last - first + 1 <= CeilDiv(c.max, Advance(c))
  {
    var a, q := Advance(c), CeilDiv(c.max, Advance(c));
    BeginIsProduct(c, first);
    BeginIsProduct(c, last);
    CeilBounds(c.max, a);
    assert (last - first) * a == last * a - first * a;
    if q <= last - first {
      Monotony(q, last - first, a);
    }
  }
}
