/**
 The chunk tables of internal/api/httpstream.go: how a cross-lane source cuts an object into chunks,
 how the ladder and the probe find their way around the same chunks, and the chunked read over them.
 */
module ChunkTable {
  import opened Arithmetic
  import opened Proofs
  import opened Text
  import opened Wrappers

  const MAX_MAPPING_PROOF_BYTES := 64 * 1024 * 1024
  const MAX_LANE_CANDIDATES := 2048

  datatype Chunk = Chunk(index: int, key: string, declaredSize: int)

  datatype TableError = InvalidSource | TooManyChunks

  datatype Table = Table(chunks: seq<Chunk>, starts: seq<int>)

  function ChunkBound(chunkBytes: int): (bound: int)
    ensures bound <= chunkBytes && bound <= 64 * 1024 * 1024 && bound in {chunkBytes, 64 * 1024 * 1024}
  {
    if chunkBytes < MAX_MAPPING_PROOF_BYTES then chunkBytes else MAX_MAPPING_PROOF_BYTES
  }

  /** Chunk `i` is the part of the object from its start to the next one's. */
  ghost predicate TilesUpTo(t: Table, chunkBytes: int, reached: int) {
    && |t.starts| == |t.chunks| + 1
    && t.starts[0] == 0 && t.starts[|t.chunks|] == reached
    && (forall i {:trigger t.chunks[i]} :: 0 <= i < |t.chunks| ==>
          && t.chunks[i].index == i
          && 0 < t.chunks[i].declaredSize <= chunkBytes
          && t.starts[i] + t.chunks[i].declaredSize == t.starts[i + 1])
    && AtMultiples(t, chunkBytes)
  }

  ghost predicate AtMultiples(t: Table, chunkBytes: int)
    requires |t.starts| == |t.chunks| + 1
  {
    forall i :: 0 <= i < |t.chunks| ==> t.starts[i] == i * chunkBytes
  }

  ghost predicate Keyed(chunks: seq<Chunk>) {
    forall i :: 0 <= i < |chunks| ==> chunks[i].key == FormatNat(i)
  }

  /** The table partitions [0, size) into ceil(size / bound) chunks, all full but perhaps the last. */
  ghost predicate Partitions(t: Table, size: int, bound: int)
    requires bound > 0
  {
    && TilesUpTo(t, bound, size) && Keyed(t.chunks)
    && |t.chunks| == (size - 1) / bound + 1
    && (forall i {:trigger t.chunks[i]} :: 0 <= i < |t.chunks| - 1 ==> t.chunks[i].declaredSize == bound)
  }

  method NewTable(size: int, chunkBytes: int) returns (r: Result<Table, TableError>)
    ensures r.Err? && r.error == InvalidSource <==> size <= 0 || chunkBytes <= 0
    ensures r.Err? && r.error == TooManyChunks <==>
              size > 0 && chunkBytes > 0 && (size - 1) / ChunkBound(chunkBytes) + 1 > 2048
    ensures r.Ok? ==> Partitions(r.value, size, ChunkBound(chunkBytes))
  {
    if size <= 0 || chunkBytes <= 0 {
      return Err(InvalidSource);
    }
    var bound := ChunkBound(chunkBytes);
    var count := (size - 1) / bound + 1;
    if count > MAX_LANE_CANDIDATES {
      return Err(TooManyChunks);
    }
    var chunks, starts := [], [];
    var start, index := 0, 0;
    while start < size
      invariant index == |chunks| && Keyed(chunks) && Cut(chunks, start, size, bound)
      invariant TilesUpTo(Table(chunks, starts + [start]), bound, start)
      decreases size - start
    {
      var remaining := size - start;
      var length := if bound < remaining then bound else remaining;
      TilesOneMore(Table(chunks, starts + [start]), bound, start, index, FormatNat(index), length);
      CutOneMore(chunks, start, size, bound, Chunk(index, FormatNat(index), length));
      starts := starts + [start];
      chunks := chunks + [Chunk(index, FormatNat(index), length)];
      start := start + length;
      index := index + 1;
    }
    CeilOf(size, bound, index);
    r := Ok(Table(chunks, starts + [size]));
  }

  /** The chunks so far are full, except perhaps one that ends the object. */
  ghost predicate Cut(chunks: seq<Chunk>, start: int, size: int, bound: int) {
    var n := |chunks|;
    && 0 <= start <= size
    && (start < size ==> start == n * bound && FullUpTo(chunks, n, bound))
    && (start == size ==> n > 0 && (n - 1) * bound < size <= n * bound && FullUpTo(chunks, n - 1, bound))
  }

  lemma CutOneMore(chunks: seq<Chunk>, start: int, size: int, bound: int, chunk: Chunk)
    requires Cut(chunks, start, size, bound) && start < size && bound > 0
    requires chunk.declaredSize == if bound < size - start then bound else size - start
    ensures Cut(chunks + [chunk], start + chunk.declaredSize, size, bound)
  {
    OneMoreProduct(|chunks|, bound);
  }

  ghost predicate FullUpTo(chunks: seq<Chunk>, n: int, bound: int) {
    forall i {:trigger chunks[i]} :: 0 <= i < n && i < |chunks| ==> chunks[i].declaredSize == bound
  }

  lemma OneMoreProduct(n: int, bound: int)
    ensures (n + 1) * bound == n * bound + bound
  {
  }

  lemma TilesOneMore(t: Table, bound: int, start: int, n: nat, key: string, length: int)
    requires TilesUpTo(t, bound, start) && n == |t.chunks| && start == n * bound && 0 < length <= bound
    ensures TilesUpTo(Table(t.chunks + [Chunk(n, key, length)], t.starts + [start + length]), bound, start + length)
  {
    var longer := Table(t.chunks + [Chunk(n, key, length)], t.starts + [start + length]);
    assert longer.starts[0] == t.starts[0] && longer.starts[n] == t.starts[n] &&
           longer.chunks[n] == Chunk(n, key, length);
    forall i {:trigger longer.chunks[i]} | 0 <= i < |longer.chunks|
      ensures longer.chunks[i].index == i && 0 < longer.chunks[i].declaredSize <= bound
      ensures longer.starts[i] + longer.chunks[i].declaredSize == longer.starts[i + 1]
    {
      if i < n {
        assert longer.chunks[i] == t.chunks[i] && longer.starts[i] == t.starts[i] &&
               longer.starts[i + 1] == t.starts[i + 1];
      }
    }
    MultiplesOneMore(t, longer, bound);
  }

  lemma MultiplesOneMore(t: Table, longer: Table, bound: int)
    requires |t.starts| == |t.chunks| + 1 && |longer.starts| == |longer.chunks| + 1 == |t.starts| + 1
    requires longer.starts[..|t.starts|] == t.starts && t.starts[|t.chunks|] == |t.chunks| * bound
    requires AtMultiples(t, bound)
    ensures AtMultiples(longer, bound)
  {
    forall i | 0 <= i < |longer.chunks|
      ensures longer.starts[i] == i * bound
    {
      assert longer.starts[i] == longer.starts[..|t.starts|][i] == t.starts[i];
      if i == |t.chunks| {
        assert t.starts[i] == i * bound;
      }
    }
  }

  lemma CeilOf(size: int, bound: int, count: int)
    requires bound > 0 && (count - 1) * bound < size <= count * bound
    ensures (size - 1) / bound + 1 == count
  {
    assert count * bound == (count - 1) * bound + bound;
    QuotientIs(size - 1, bound, count - 1, size - 1 - (count - 1) * bound);
  }

  // ---------------------------------------------------------------- offsets

  function PrefixSum(sizes: seq<int>, n: nat): int
    requires n <= |sizes|
  {
    if n == 0 then 0 else PrefixSum(sizes, n - 1) + sizes[n - 1]
  }

  /** The offsets a ladder source computes from the sizes of its chunks. */
  method LadderOffsets(sizes: seq<int>) returns (offsets: seq<int>)
    ensures |offsets| == |sizes|
    ensures forall i :: 0 <= i < |sizes| ==> offsets[i] == PrefixSum(sizes, i)
  {
    offsets := [];
    var offset := 0;
    for i := 0 to |sizes|
      invariant |offsets| == i && offset == PrefixSum(sizes, i)
      invariant forall j :: 0 <= j < i ==> offsets[j] == PrefixSum(sizes, j)
    {
      offsets := offsets + [offset];
      offset := offset + sizes[i];
    }
  }

  function Sizes(chunks: seq<Chunk>): (sizes: seq<int>)
    ensures |sizes| == |chunks|
  {
    seq(|chunks|, i requires 0 <= i < |chunks| => chunks[i].declaredSize)
  }

  /** The ladder's prefix sums are the table's starts. */
  lemma {:induction false} OffsetsAreStarts(t: Table, size: int, bound: int, n: nat)
    requires bound > 0 && Partitions(t, size, bound) && n <= |t.chunks|
    ensures PrefixSum(Sizes(t.chunks), n) == t.starts[n]
  {
    if n > 0 {
      OffsetsAreStarts(t, size, bound, n - 1);
      assert t.starts[n - 1] + t.chunks[n - 1].declaredSize == t.starts[n];
    }
  }

  /** Every chunk before the found one ends at or before the target, and the found one past it. */
  ghost predicate FirstPast(sizes: seq<int>, target: int, found: Option<nat>) {
    && (found.Some? ==> found.value < |sizes| && target < PrefixSum(sizes, found.value + 1))
    && (forall j :: 0 < j <= (if found.Some? then found.value else |sizes|) ==> PrefixSum(sizes, j) <= target)
  }

  /** The first chunk whose end lies past the target, as the playback probe looks for it. */
  method FirstChunk(sizes: seq<int>, target: int) returns (found: Option<nat>)
    ensures FirstPast(sizes, target, found)
  {
    var offset := 0;
    for i := 0 to |sizes|
      invariant offset == PrefixSum(sizes, i)
      invariant forall j :: 0 < j <= i ==> PrefixSum(sizes, j) <= target
    {
      if target < offset + sizes[i] {
        return Some(i);
      }
      offset := offset + sizes[i];
    }
    found := None;
  }

  predicate Contains(t: Table, i: nat, x: int)
    requires i < |t.chunks| && |t.starts| == |t.chunks| + 1
  {
    t.starts[i] <= x < t.starts[i + 1]
  }

  /** Every byte of the object lies in exactly one chunk, and that is the one the probe finds. */
  lemma ProbeFindsTheChunk(t: Table, size: int, bound: int, target: int, found: Option<nat>)
    requires bound > 0 && size > 0 && Partitions(t, size, bound) && target >= 0
    requires FirstPast(Sizes(t.chunks), target, found)
    ensures found.Some? <==> target < size
    ensures found.Some? ==> forall i: nat :: i < |t.chunks| ==> (Contains(t, i, target) <==> i == found.value)
  {
    var sizes, n := Sizes(t.chunks), |t.chunks|;
    OffsetsAreStarts(t, size, bound, n);
    if found.Some? {
      var k := found.value;
      OffsetsAreStarts(t, size, bound, k + 1);
      OffsetsAreStarts(t, size, bound, k);
      StartsIncrease(t, size, bound, k + 1, n);
      assert Contains(t, k, target);
      ContainedOnce(t, size, bound, target, k);
    }
  }

  lemma ContainedOnce(t: Table, size: int, bound: int, target: int, k: nat)
    requires bound > 0 && Partitions(t, size, bound) && k < |t.chunks| && Contains(t, k, target)
    ensures forall i: nat :: i < |t.chunks| && i != k ==> !Contains(t, i, target)
  {
    forall i: nat | i < |t.chunks| && i != k
      ensures !Contains(t, i, target)
    {
      if i < k {
        StartsIncrease(t, size, bound, i + 1, k);
      } else {
        StartsIncrease(t, size, bound, k + 1, i);
      }
    }
  }

  lemma {:induction false} StartsIncrease(t: Table, size: int, bound: int, i: nat, j: nat)
    requires bound > 0 && Partitions(t, size, bound) && i <= j <= |t.chunks|
    ensures t.starts[i] <= t.starts[j]
    ensures i < j ==> t.starts[i] < t.starts[j]
    decreases j
  {
    if i < j {
      StartsIncrease(t, size, bound, i, j - 1);
      assert t.starts[j - 1] + t.chunks[j - 1].declaredSize == t.starts[j];
    }
  }

  lemma NextStartsLater(t: Table, size: int, bound: int, i: nat)
    requires bound > 0 && Partitions(t, size, bound) && i < |t.chunks|
    ensures i + 1 < |t.chunks| ==> t.starts[i + 1] < t.starts[i + 2]
  {
    if i + 1 < |t.chunks| {
      StartsIncrease(t, size, bound, i + 1, i + 2);
    }
  }

  // ---------------------------------------------------------------- reading

  /** Recovery of the inclusive span [first, last]; it fails or returns exactly the true bytes. */
  type Recoverer = (int, int) -> Option<seq<byte>>

  ghost predicate Faithful(recover: Recoverer, truth: seq<byte>) {
    forall first, last :: 0 <= first <= last < |truth| && recover(first, last).Some? ==>
                            recover(first, last).value == truth[first..last + 1]
  }

  /** The least chunk that ends past `off`, by the bisection of sort.Search. */
  method Search(t: Table, size: int, bound: int, off: int) returns (lo: nat)
    requires bound > 0 && Partitions(t, size, bound)
    ensures lo <= |t.chunks|
    ensures lo < |t.chunks| ==> off < t.starts[lo + 1]
    ensures lo > 0 ==> t.starts[lo] <= off
  {
    lo := 0;
    var hi := |t.chunks|;
    while lo < hi
      invariant 0 <= lo <= hi <= |t.chunks|
      invariant hi < |t.chunks| ==> off < t.starts[hi + 1]
      invariant lo > 0 ==> t.starts[lo] <= off
    {
      var mid := (lo + hi) / 2;
      if !(t.starts[mid + 1] > off) {
        lo := mid + 1;
      } else {
        hi := mid;
      }
    }
  }

  datatype ReadFailure = NegativeOffset | EndOfSource | FetchFailed

  /** The span a chunk's fetch asks recovery for. */
  function FetchChunk(t: Table, i: nat, recover: Recoverer): Option<seq<byte>>
    requires i < |t.chunks| && |t.starts| == |t.chunks| + 1
  {
    recover(t.starts[i], t.starts[i] + t.chunks[i].declaredSize - 1)
  }

  /** What fetching chunk `i` yields is that chunk's part of the object, no more and no less. */
  lemma FetchIsTheChunk(t: Table, size: int, bound: int, i: nat, recover: Recoverer, truth: seq<byte>)
    requires bound > 0 && size == |truth| && Partitions(t, size, bound) && i < |t.chunks| && Faithful(recover, truth)
    ensures 0 <= t.starts[i] < t.starts[i + 1] <= size
    ensures FetchChunk(t, i, recover) ==
            if recover(t.starts[i], t.starts[i + 1] - 1).Some? then Some(truth[t.starts[i]..t.starts[i + 1]]) else None
  {
    assert t.starts[i] + t.chunks[i].declaredSize == t.starts[i + 1];
    StartsIncrease(t, size, bound, i + 1, |t.chunks|);
    StartsIncrease(t, size, bound, 0, i);
  }

  /** The bytes of one chunk that a read takes: past the skipped front, at most as many as it has room for. */
  function Take(data: seq<byte>, frontSkip: nat, room: nat): seq<byte> {
    if frontSkip >= |data| then []
    else
      var avail := data[frontSkip..];
      if |avail| > room then avail[..room] else avail
  }

  lemma TakeIsTrue(truth: seq<byte>, first: nat, next: nat, frontSkip: nat, room: nat)
    requires first < next <= |truth| && frontSkip < next - first
    ensures var part := Take(truth[first..next], frontSkip, room);
            && |part| == (if next - first - frontSkip > room then room else next - first - frontSkip)
            && part == truth[first + frontSkip..first + frontSkip + |part|]
  {
    var part := Take(truth[first..next], frontSkip, room);
    assert forall k :: 0 <= k < |part| ==> part[k] == truth[first + frontSkip + k];
  }

  lemma TakeContinues(truth: seq<byte>, first: nat, next: nat, off: nat, p: seq<byte>, room: nat)
    requires first < next <= |truth| && first <= off + |p| < next && room > 0
    requires p == truth[off..off + |p|] && (p != [] ==> off + |p| == first)
    ensures var part := Take(truth[first..next], if off > first then off - first else 0, room);
            && |part| <= room && off + |p| + |part| <= next
            && (|part| == room || off + |p| + |part| == next)
            && |p + part| > 0 && p + part == truth[off..off + |p| + |part|]
  {
    var skip := if off > first then off - first else 0;
    TakeIsTrue(truth, first, next, skip, room);
    var part := Take(truth[first..next], skip, room);
    assert first + skip == off + |p|;
    assert truth[off..off + |p|] + truth[off + |p|..off + |p| + |part|] == truth[off..off + |p| + |part|];
  }

  /** What a read has when it comes to chunk `i`: true bytes, up to where that chunk starts unless it is the first. */
  ghost predicate ReadSoFar(t: Table, truth: seq<byte>, off: nat, p: seq<byte>, want: nat, i: nat)
    requires i <= |t.chunks| && |t.starts| == |t.chunks| + 1
  {
    && |p| <= want && off + |p| <= |truth| && p == truth[off..off + |p|]
    && (|p| < want ==> t.starts[i] <= off + |p| && (p != [] ==> off + |p| == t.starts[i]))
    && (i < |t.chunks| && |p| < want ==> off + |p| < t.starts[i + 1])
  }

  /** The next chunk's contribution continues what has been read. */
  lemma ReadOneMore(t: Table, i: nat, fetched: seq<byte>, truth: seq<byte>, off: nat, p: seq<byte>, want: nat)
    requires i < |t.chunks| && |t.starts| == |t.chunks| + 1
    requires 0 <= t.starts[i] < t.starts[i + 1] <= |truth| && fetched == truth[t.starts[i]..t.starts[i + 1]]
    requires i + 1 < |t.chunks| ==> t.starts[i + 1] < t.starts[i + 2]
    requires ReadSoFar(t, truth, off, p, want, i) && |p| < want
    ensures var skip := if off > t.starts[i] then off - t.starts[i] else 0;
            ReadSoFar(t, truth, off, p + Take(fetched, skip, want - |p|), want, i + 1)
  {
    TakeContinues(truth, t.starts[i], t.starts[i + 1], off, p, want - |p|);
  }

  /** Recovery of chunk `i` fails, and the read stops where it needs that chunk: after all it had before. */
  ghost predicate StoppedAt(t: Table, i: nat, off: int, n: nat, recover: Recoverer)
    requires i < |t.chunks| && |t.starts| == |t.chunks| + 1
  {
    && recover(t.starts[i], t.starts[i + 1] - 1).None?
    && t.starts[i] <= off + n < t.starts[i + 1] && (n > 0 ==> off + n == t.starts[i])
  }

  /**
   A chunked read of `want` bytes at `off`: the bytes it returns are the object's own, as many as
   there are unless a chunk could not be recovered, and it says end-of-source exactly when short.
   */
  method ReadAt(t: Table, size: int, bound: int, off: int, want: nat, recover: Recoverer, ghost truth: seq<byte>)
    returns (p: seq<byte>, failure: Option<ReadFailure>)
    requires bound > 0 && 0 < size == |truth| && Partitions(t, size, bound) && Faithful(recover, truth)
    ensures failure == Some(NegativeOffset) <==> off < 0
    ensures p != [] ==> 0 <= off && off + |p| <= size && p == truth[off..off + |p|]
    ensures |p| <= want
    ensures failure.None? ==> |p| == want
    ensures failure == Some(EndOfSource) ==> |p| < want && off + |p| == if off < size then size else off
    ensures failure == Some(FetchFailed) ==> exists i: nat :: i < |t.chunks| && StoppedAt(t, i, off, |p|, recover)
  {
    if off < 0 {
      return [], Some(NegativeOffset);
    }
    if want == 0 {
      return [], None;
    }
    if off >= t.starts[|t.chunks|] {
      return [], Some(EndOfSource);
    }
    var lo := Search(t, size, bound, off);
    p := [];
    var i := lo;
    while i < |t.chunks| && |p| < want
      invariant i <= |t.chunks| && ReadSoFar(t, truth, off, p, want, i)
    {
      var fetched := FetchChunk(t, i, recover);
      FetchIsTheChunk(t, size, bound, i, recover, truth);
      if fetched.None? {
        assert StoppedAt(t, i, off, |p|, recover);
        return p, Some(FetchFailed);
      }
      NextStartsLater(t, size, bound, i);
      ReadOneMore(t, i, fetched.value, truth, off, p, want);
      var frontSkip := if off > t.starts[i] then off - t.starts[i] else 0;
      p := p + Take(fetched.value, frontSkip, want - |p|);
      i := i + 1;
    }
    failure := if |p| < want then Some(EndOfSource) else None;
  }

  // ---------------------------------------------------------------- the ladder's source

  datatype FetchResult = Data(data: seq<byte>) | OriginError

  /** What a fetch of one chunk answers, and what is primed afterwards. */
  function FetchAnswer(
      sizes: seq<int>, primed: map<int, seq<byte>>, index: int, size: int,
      origin: Option<seq<byte>>, recover: Option<Recoverer>)
    : (FetchResult, map<int, seq<byte>>)
  {
    if index in primed then (Data(primed[index]), primed - {index})
    else if origin.Some? then (Data(origin.value), primed)
    else if recover.Some? && 0 <= index < |sizes| && size > 0 then
      var start := PrefixSum(sizes, index);
      var recovered := recover.value(start, start + size - 1);
      (if recovered.Some? && |recovered.value| == size then Data(recovered.value) else OriginError, primed)
    else (OriginError, primed)
  }

  /**
   A primed chunk is served exactly once, whatever else is fetched: the next fetch of it returns the
   bytes set aside, and after that everything is as if it had never been primed.
   */
  lemma PrimedIsServedOnce(
      sizes: seq<int>, primed: map<int, seq<byte>>, index: int, data: seq<byte>, size: int,
      origin: Option<seq<byte>>, recover: Option<Recoverer>, other: int)
    requires index !in primed && other != index
    ensures FetchAnswer(sizes, primed[index := data], index, size, origin, recover) == (Data(data), primed)
    ensures var (answer, left) := FetchAnswer(sizes, primed, other, size, origin, recover);
            FetchAnswer(sizes, primed[index := data], other, size, origin, recover) == (answer, left[index := data])
  {
    assert primed[index := data] - {index} == primed;
    assert primed[index := data] - {other} == (primed - {other})[index := data];
  }

  /**
   A fetch of a chunk that is not primed, with its declared size: what the origin delivers is handed on;
   when it fails, exactly that chunk's part of the object if that part can be recovered, else the error.
   */
  lemma RecoveredFetchIsTheChunk(
      t: Table, size: int, bound: int, i: nat, primed: map<int, seq<byte>>, recover: Recoverer, truth: seq<byte>)
    requires bound > 0 && size == |truth| && Partitions(t, size, bound) && i < |t.chunks| && Faithful(recover, truth)
    requires i !in primed
    ensures 0 <= t.starts[i] < t.starts[i + 1] <= size
    ensures FetchAnswer(Sizes(t.chunks), primed, i, t.chunks[i].declaredSize, None, Some(recover)) ==
            (if recover(t.starts[i], t.starts[i + 1] - 1).Some? then Data(truth[t.starts[i]..t.starts[i + 1]])
             else OriginError, primed)
    ensures FetchAnswer(Sizes(t.chunks), primed, i, t.chunks[i].declaredSize, None, None) == (OriginError, primed)
    ensures forall data ::
              FetchAnswer(Sizes(t.chunks), primed, i, t.chunks[i].declaredSize, Some(data), Some(recover)) ==
              (Data(data), primed)
  {
    FetchIsTheChunk(t, size, bound, i, recover, truth);
    OffsetsAreStarts(t, size, bound, i);
    assert t.starts[i] + t.chunks[i].declaredSize == t.starts[i + 1];
  }

  /** Playback's chunk source: a primed chunk once, else the origin, else the cross-lane recovery. */
  class LadderSource {
    const sizes: seq<int>
    const offsets: seq<int>
    var primed: map<int, seq<byte>>

    constructor (sizes: seq<int>, offsets: seq<int>)
      requires |offsets| == |sizes| && forall i :: 0 <= i < |sizes| ==> offsets[i] == PrefixSum(sizes, i)
      ensures Valid() && primed == map[] && this.sizes == sizes
    {
      this.sizes, this.offsets, primed := sizes, offsets, map[];
    }

    ghost predicate Valid() {
      |offsets| == |sizes| && forall i :: 0 <= i < |sizes| ==> offsets[i] == PrefixSum(sizes, i)
    }

    /** Sets a chunk's bytes aside for its next fetch. */
    method Prime(index: int, data: seq<byte>)
      modifies this`primed
      ensures primed == old(primed)[index := data]
      ensures forall size: int, origin: Option<seq<byte>>, recover: Option<Recoverer> ::
                FetchAnswer(sizes, primed, index, size, origin, recover).0 == Data(data)
    {
      primed := primed[index := data];
    }

    /** `origin` is what the ladder's own rung came to; `recover` is absent when not wired. */
    method Fetch(index: int, size: int, origin: Option<seq<byte>>, recover: Option<Recoverer>) returns (r: FetchResult)
      requires Valid()
      modifies this`primed
      ensures (r, primed) == FetchAnswer(sizes, old(primed), index, size, origin, recover)
      ensures index !in old(primed) && origin.None? && r.Data? ==> |r.data| == size && 0 <= index < |sizes|
    {
      if index in primed {
        r := Data(primed[index]);
        primed := primed - {index};
        return;
      }
      if origin.Some? {
        return Data(origin.value);
      }
      if recover.Some? && 0 <= index < |offsets| && size > 0 {
        var start := offsets[index];
        var recovered := recover.value(start, start + size - 1);
        if recovered.Some? && |recovered.value| == size {
          return Data(recovered.value);
        }
      }
      r := OriginError;
    }
  }
}
