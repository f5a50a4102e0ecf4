/**
 The canonical reader of internal/api/mediaflow_owned.go: an object that streams [start, end) of a
 representation out of verified blocks only, one block at a time, from a cached window of proofs.
 */
module CanonicalReader {
  import opened Proofs
  import opened Wrappers

  const MAX_PROOF_WINDOW_BYTES := 8 * 1024 * 1024
  const MAX_PROOFS_PER_REQUEST := 64

  datatype ReadError =
    | Canceled
    | EOF
    | StoreFailed
    | LacksProof
    | ProofGap
    | GeometryUnavailable
    | Abstained
    | OverlapAbsent

  predicate MayAuthorizeAggregate(p: Provenance) {
    p.IADigest? || p.HTTPDigest? || p.Metalink? || p.TorrentPiece? || p.TorrentMerkle? || p.PAR2IFSC?
  }

  predicate Usable(p: Proof, representation: string, size: int) {
    && p.representation == representation
    && p.kind.Authoritative?
    && p.offset >= 0 && p.length > 0 && p.length <= MAX_PROOF_WINDOW_BYTES
    && p.offset <= size && p.length <= size - p.offset
    && MayAuthorizeAggregate(p.provenance)
  }

  function UsableFor(representation: string, size: int): Filter {
    p => Usable(p, representation, size)
  }

  /**
   The proofs a reader may stream from, spelled out: an authoritative proof of at most 8 MiB inside the
   object, from a torrent, PAR2, an archive's or a server's digest, or a metalink.
   */
  predicate Authorizes(p: Proof, representation: string, size: int) {
    && p.representation == representation && p.kind == Authoritative
    && p.provenance in {IADigest, HTTPDigest, Metalink, TorrentPiece, TorrentMerkle, PAR2IFSC}
    && 0 <= p.offset && 0 < p.length <= 8 * 1024 * 1024 && p.End() <= size
  }

  lemma CoveredMeansAuthorized(proofs: seq<Proof>, representation: string, size: int, x: int)
    ensures Covered(proofs, UsableFor(representation, size), x) <==>
            exists p :: p in proofs && Authorizes(p, representation, size) && p.Covers(x)
  {
    if p :| p in proofs && Authorizes(p, representation, size) && p.Covers(x) {
      var i :| 0 <= i < |proofs| && proofs[i] == p;
      assert Usable(proofs[i], representation, size);
    }
    if Covered(proofs, UsableFor(representation, size), x) {
      var i :| 0 <= i < |proofs| && Usable(proofs[i], representation, size) && proofs[i].Covers(x);
      assert proofs[i] in proofs && Authorizes(proofs[i], representation, size);
    }
  }

  /** The store's window query: authoritative proofs that meet [from, from + length), in listing order. */
  function Intersecting(stored: seq<Proof>, representation: string, from: int, length: int): seq<Proof> {
    if stored == [] then []
    else
      var p, rest := stored[0], Intersecting(stored[1..], representation, from, length);
      if p.representation == representation && p.kind.Authoritative? && p.length > 0 &&
         p.offset < from + length && p.length > from - p.offset then [p] + rest else rest
  }

  /** A proof of a byte inside the queried window is never left out of the listing. */
  lemma {:induction false} ListingIsComplete(
      stored: seq<Proof>, representation: string, size: int, from: int, length: int, x: int)
    requires from <= x < from + length
    ensures var listed := Intersecting(stored, representation, from, length);
            && (forall p :: p in listed ==> p in stored)
            && (forall p :: p in stored && Usable(p, representation, size) && p.Covers(x) ==> p in listed)
  {
    if stored != [] {
      ListingIsComplete(stored[1..], representation, size, from, length, x);
      var p := stored[0];
      assert forall q :: q in stored <==> q == p || q in stored[1..];
      assert Usable(p, representation, size) && p.Covers(x) ==> p.length > from - p.offset;
    }
  }

  /** Looking a byte up in the cached listing is as good as looking it up in the store. */
  lemma CachedLookupIsExact(stored: seq<Proof>, representation: string, size: int, from: int, length: int, x: int)
    requires from <= x < from + length
    ensures var listed := Intersecting(stored, representation, from, length);
            var usable := UsableFor(representation, size);
            && (Covered(listed, usable, x) <==> Covered(stored, usable, x))
            && (forall p :: EarliestEnding(p, listed, usable, x) <==> EarliestEnding(p, stored, usable, x))
  {
    var listed := Intersecting(stored, representation, from, length);
    var usable := UsableFor(representation, size);
    ListingIsComplete(stored, representation, size, from, length, x);
    if Covered(stored, usable, x) {
      var i :| 0 <= i < |stored| && usable(stored[i]) && stored[i].Covers(x);
      assert stored[i] in listed;
      var k :| 0 <= k < |listed| && listed[k] == stored[i];
    }
    if Covered(listed, usable, x) {
      var i :| 0 <= i < |listed| && usable(listed[i]) && listed[i].Covers(x);
      assert listed[i] in stored;
      var k :| 0 <= k < |stored| && stored[k] == listed[i];
    }
    forall p
      ensures EarliestEnding(p, listed, usable, x) <==> EarliestEnding(p, stored, usable, x)
    {
      if EarliestEnding(p, listed, usable, x) {
        forall i | 0 <= i < |stored| && usable(stored[i]) && stored[i].Covers(x)
          ensures p.End() <= stored[i].End()
        {
          assert stored[i] in listed;
        }
      }
      if EarliestEnding(p, stored, usable, x) {
        forall i | 0 <= i < |listed| && usable(listed[i]) && listed[i].Covers(x)
          ensures p.End() <= listed[i].End()
        {
          assert listed[i] in stored;
        }
      }
    }
  }

  /** What a lookup in the listing of a window says about the store. */
  lemma LookupAnswers(
      stored: seq<Proof>, representation: string, size: int, from: int, length: int, x: int, selected: Option<Proof>)
    requires from <= x < from + length
    requires var listed := Intersecting(stored, representation, from, length);
             var usable := UsableFor(representation, size);
             && (selected.Some? <==> Covered(listed, usable, x))
             && (selected.Some? ==> EarliestEnding(selected.value, listed, usable, x))
    ensures selected.Some? <==> exists p :: p in stored && Authorizes(p, representation, size) && p.Covers(x)
    ensures selected.Some? ==> selected.value in stored && Authorizes(selected.value, representation, size)
  {
    CachedLookupIsExact(stored, representation, size, from, length, x);
    CoveredMeansAuthorized(stored, representation, size, x);
    if selected.Some? {
      assert EarliestEnding(selected.value, stored, UsableFor(representation, size), x);
    }
  }

  lemma EmptyListingAnswers(stored: seq<Proof>, representation: string, size: int, from: int, length: int, x: int)
    requires from <= x < from + length && Intersecting(stored, representation, from, length) == []
    ensures forall p :: p in stored && Authorizes(p, representation, size) ==> !p.Covers(x)
  {
    LookupAnswers(stored, representation, size, from, length, x, None);
  }

  lemma SliceOfSlice<T>(s: seq<T>, lo: nat, hi: nat, from: nat, to: nat)
    requires lo <= hi <= |s| && from <= to <= hi - lo
    ensures s[lo..hi][from..to] == s[lo + from..lo + to]
  {
    var inner := s[lo..hi];
    forall k | 0 <= k < to - from
      ensures inner[from..to][k] == s[lo + from..lo + to][k]
    {
      assert inner[from..to][k] == inner[from + k];
    }
  }

  /** Recovery of the proof's block comes back proven, and its digest geometry is known if it needs one. */
  predicate Recoverable(p: Proof, geometry: Proof -> bool, recover: Proof -> Recovery) {
    Recovered(recover(p), p) && (p.provenance.TorrentMerkle? ==> geometry(p))
  }

  class Reader {
    const representation: string
    const size: int
    const end: int
    var cursor: int
    var proofs: seq<Proof>
    var proofWindowEnd: int
    var buffer: seq<byte>

    ghost const start: int
    ghost const truth: seq<byte>       // the object's true bytes
    ghost var proofWindowStart: int
    ghost var emitted: seq<byte>       // everything Read has copied out so far

    /** What holds whatever the store lists: the bytes emitted and buffered are true ones. */
    ghost predicate Valid()
      reads this
    {
      && 0 <= start <= cursor <= end <= size == |truth|
      && emitted == truth[start..cursor]
      && cursor + |buffer| <= end
      && buffer == truth[cursor..cursor + |buffer|]
    }

    /** The cached listing is what the proofs in `stored` answer for its window. */
    ghost predicate Current(stored: seq<Proof>)
      reads this
    {
      proofs != [] ==>
        && proofWindowStart <= cursor
        && proofs == Intersecting(stored, representation, proofWindowStart, proofWindowEnd - proofWindowStart)
    }

    constructor (
        representation: string, start: int, length: int, size: int, ghost truth: seq<byte>)
      requires |truth| == size
      requires 0 <= start && length > 0 && start <= size && length <= size - start
      ensures Valid() && emitted == [] && this.start == start && end == start + length
      ensures forall stored :: Current(stored)
      ensures this.truth == truth && this.representation == representation && this.size == size
    {
      this.representation, this.size, this.end, this.cursor := representation, size, start + length, start;
      this.start, this.truth, this.emitted := start, truth, [];
      proofs, proofWindowEnd, proofWindowStart, buffer := [], 0, 0, [];
    }

    function WindowLength(): int
      reads this
    {
      if end - cursor > MAX_PROOF_WINDOW_BYTES then MAX_PROOF_WINDOW_BYTES else end - cursor
    }

    /** The listing is what the proofs in `stored` answer for the window at the cursor. */
    ghost predicate Lists(listing: seq<Proof>, stored: seq<Proof>)
      reads this
    {
      listing == Intersecting(stored, representation, cursor, WindowLength())
    }

    /** Some usable proof in `stored` covers the byte at the cursor. */
    ghost predicate Provable(stored: seq<Proof>)
      reads this
    {
      exists p :: p in stored && Authorizes(p, representation, size) && p.Covers(cursor)
    }

    /** Nothing but proof coverage can stop the next block. */
    ghost predicate NothingElseFails(
        stored: seq<Proof>, listing: seq<Proof>, storeFails: bool, geometry: Proof -> bool, recover: Proof -> Recovery)
      reads this
    {
      && !storeFails && |listing| <= 64
      && (forall p :: p in stored && Authorizes(p, representation, size) ==>
            Recoverable(p, geometry, recover))
    }

    /** Lists the proofs of the window at the cursor when the cached listing does not reach it. */
    method RefreshProofs(listing: seq<Proof>, storeFails: bool, ghost stored: seq<Proof>)
      returns (failure: Option<ReadError>)
      requires Valid() && cursor < end
      modifies this`proofs, this`proofWindowEnd, this`proofWindowStart
      ensures Valid()
      ensures failure.None? ==> proofs != [] && cursor < proofWindowEnd
      ensures old(proofs) != [] && cursor < old(proofWindowEnd) ==>
                failure.None? && proofs == old(proofs) && proofWindowEnd == old(proofWindowEnd)
      ensures old(proofs) == [] || cursor >= old(proofWindowEnd) ==>
                && (failure == Some(StoreFailed) <==> storeFails || |listing| > 64)
                && (failure == Some(LacksProof) <==> !storeFails && listing == [])
                && (failure.None? ==> proofs == listing && proofWindowEnd == cursor + WindowLength())
      ensures failure.Some? ==> failure.value in {StoreFailed, LacksProof}
      ensures old(Current(stored)) && Lists(listing, stored) ==> Current(stored)
    {
      if |proofs| == 0 || cursor >= proofWindowEnd {
        var windowLength := end - cursor;
        if windowLength > MAX_PROOF_WINDOW_BYTES {
          windowLength := MAX_PROOF_WINDOW_BYTES;
        }
        if storeFails || |listing| > MAX_PROOFS_PER_REQUEST {
          return Some(StoreFailed);
        }
        if |listing| == 0 {
          return Some(LacksProof);
        }
        proofs := listing;
        proofWindowStart, proofWindowEnd := cursor, cursor + windowLength;
      }
      failure := None;
    }

    /** Recovers the selected proof's block and keeps the part from the cursor to the end. */
    method TakeBlock(
        selected: Proof, geometry: Proof -> bool, recover: Proof -> Recovery)
      returns (failure: Option<ReadError>)
      requires Valid() && buffer == [] && cursor < end && Truthful(recover, truth)
      requires Usable(selected, representation, size) && selected.Covers(cursor)
      modifies this`buffer
      ensures Valid()
      ensures failure.None? <==> buffer != []
      ensures failure.None? <==> Recoverable(selected, geometry, recover)
      ensures failure.None? ==> cursor + |buffer| == if selected.End() < end then selected.End() else end
      ensures failure.Some? ==>
                failure.value == if selected.provenance.TorrentMerkle? && !geometry(selected) then GeometryUnavailable
                                 else Abstained
    {
      if selected.provenance.TorrentMerkle? && !geometry(selected) {
        return Some(GeometryUnavailable);
      }
      var block := recover(selected);
      if !Recovered(block, selected) {
        return Some(Abstained);
      }
      var from := cursor - selected.offset;
      var to := selected.length;
      if selected.offset + to > end {
        to := end - selected.offset;
      }
      if from < 0 || to <= from || to > |block.data| {
        assert false;
        return Some(OverlapAbsent);
      }
      assert block.data == truth[selected.offset..selected.End()];
      SliceOfSlice(truth, selected.offset, selected.End(), from, to);
      buffer := block.data[from..to];
      failure := None;
    }

    /** The lookup in the cached listing, and the recovery of what it finds. */
    method SelectBlock(geometry: Proof -> bool, recover: Proof -> Recovery, ghost stored: seq<Proof>)
      returns (failure: Option<ReadError>)
      requires Valid() && buffer == [] && cursor < end && Truthful(recover, truth)
      requires proofs != [] && cursor < proofWindowEnd
      modifies this`buffer
      ensures Valid()
      ensures failure.None? <==> buffer != []
      ensures failure.Some? ==> failure.value in {ProofGap, GeometryUnavailable, Abstained}
      ensures Current(stored) ==>
                && (failure == Some(ProofGap) <==> !Provable(stored))
                && (failure.Some? && Provable(stored) ==>
                      exists p :: p in stored && Authorizes(p, representation, size) &&
                                  !Recoverable(p, geometry, recover))
    {
      var selection := ProofAt(proofs, UsableFor(representation, size), cursor);
      if Current(stored) {
        LookupAnswers(stored, representation, size, proofWindowStart, proofWindowEnd - proofWindowStart, cursor,
          selection);
      }
      if selection.None? {
        return Some(ProofGap);
      }
      failure := TakeBlock(selection.value, geometry, recover);
    }

    /**
     Whatever is listed, the buffer gets true bytes or the call fails. Where the listings answer for
     `stored`, a gap is reported only if no usable proof there covers the cursor.
     */
    method LoadVerifiedBlock(
        listing: seq<Proof>, storeFails: bool, geometry: Proof -> bool, recover: Proof -> Recovery,
        ghost stored: seq<Proof>)
      returns (failure: Option<ReadError>)
      requires Valid() && buffer == [] && cursor < end && Truthful(recover, truth)
      modifies this`proofs, this`proofWindowEnd, this`proofWindowStart, this`buffer
      ensures Valid()
      ensures failure.None? <==> buffer != []
      ensures failure.Some? ==> failure.value !in {OverlapAbsent, EOF, Canceled}
      ensures failure == Some(StoreFailed) ==> storeFails || |listing| > 64
      ensures old(Current(stored)) && Lists(listing, stored) ==>
                && Current(stored)
                && (failure.Some? && failure.value in {LacksProof, ProofGap} ==> !Provable(stored))
                && (failure.None? ==> Provable(stored))
                && (NothingElseFails(stored, listing, storeFails, geometry, recover) && Provable(stored) ==>
                      failure.None?)
    {
      ghost var faithful := Current(stored) && Lists(listing, stored);
      if faithful && listing == [] {
        EmptyListingAnswers(stored, representation, size, cursor, WindowLength(), cursor);
      }
      failure := RefreshProofs(listing, storeFails, stored);
      if failure.Some? {
        return;
      }
      failure := SelectBlock(geometry, recover, stored);
    }

    /**
     Read(p): whatever the buffer's size and whatever the store lists, the bytes copied out are the
     next true bytes. A call that succeeds on a non-empty buffer makes progress, and EOF is reported
     only at the exact end. Where the listings answer for `stored`, a gap there is the only reason
     for the two gap errors, and coverage is enough.
     */
    method Read(
        p: array<byte>, canceled: bool, listing: seq<Proof>, storeFails: bool, geometry: Proof -> bool,
        recover: Proof -> Recovery, ghost stored: seq<Proof>)
      returns (n: nat, failure: Option<ReadError>)
      requires Valid() && Truthful(recover, truth)
      modifies this, p
      ensures Valid()
      ensures n <= p.Length && p[n..] == old(p[n..])
      ensures emitted == old(emitted) + p[..n] && cursor == old(cursor) + n
      ensures failure.Some? ==> n == 0
      ensures failure.None? && p.Length > 0 ==> n > 0
      ensures failure.None? ==> n == p.Length || buffer == []
      ensures failure == Some(Canceled) <==> canceled
      ensures failure == Some(StoreFailed) ==> storeFails || |listing| > 64
      ensures failure == Some(EOF) <==> !canceled && p.Length > 0 && old(cursor) == end
      ensures failure == Some(EOF) ==> emitted == truth[start..end]
      ensures failure != Some(OverlapAbsent)
      ensures old(Current(stored)) && old(Lists(listing, stored)) ==>
                && Current(stored)
                && (failure == Some(LacksProof) || failure == Some(ProofGap) ==> !old(Provable(stored)))
                && (!canceled && old(cursor) < end ==>
                      old(Provable(stored)) && NothingElseFails(stored, listing, storeFails, geometry, recover) ==>
                        failure.None?)
    {
      if canceled {
        return 0, Some(Canceled);
      }
      if p.Length == 0 {
        return 0, None;
      }
      if cursor == end {
        return 0, Some(EOF);
      }
      if |buffer| == 0 {
        failure := LoadVerifiedBlock(listing, storeFails, geometry, recover, stored);
        if failure.Some? {
          return 0, failure;
        }
      }
      n := if p.Length < |buffer| then p.Length else |buffer|;
      Emit(p, n);
      failure := None;
    }

    /** copy(p, r.buffer) and the two updates after it. */
    method Emit(p: array<byte>, n: nat)
      requires Valid() && n <= p.Length && n <= |buffer|
      modifies this`buffer, this`cursor, this`emitted, p
      ensures Valid() && cursor == old(cursor) + n
      ensures emitted == old(emitted) + p[..n] && p[n..] == old(p[n..])
      ensures |buffer| == |old(buffer)| - n
    {
      forall k | 0 <= k < n {
        p[k] := buffer[k];
      }
      assert p[..n] == truth[cursor..cursor + n];
      assert truth[start..cursor] + truth[cursor..cursor + n] == truth[start..cursor + n];
      emitted := emitted + p[..n];
      buffer := buffer[n..];
      cursor := cursor + n;
    }
  }
}
