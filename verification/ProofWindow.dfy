/**
 The cross-lane window of internal/api/http_crosslane.go: a greedy cover of [start, end] by mapped
 proofs, then the recovered blocks spliced into one buffer. RecoverBlock is an oracle.
 */
module ProofWindow {
  import opened Proofs
  import opened Wrappers

  const MAX_MAPPING_PROOF_BYTES := 64 * 1024 * 1024
  const MAX_PROOFS_PER_WINDOW := 4096

  predicate Mapped(p: Proof, representation: string, size: int) {
    && p.representation == representation
    && p.kind.Authoritative?
    && p.scope.BlockScope?
    && p.offset >= 0 && p.length > 0 && p.length <= MAX_MAPPING_PROOF_BYTES
    && p.offset <= size && p.length <= size - p.offset
    && (p.provenance.TorrentPiece? || p.provenance.TorrentMerkle? || p.provenance.PAR2IFSC?)
  }

  function MappedOnto(representation: string, size: int): Filter {
    p => Mapped(p, representation, size)
  }

  datatype WindowError =
    | Unavailable
    | ProofUnavailable
    | ProofLimit
    | LacksProof
    | CandidatesUnavailable
    | GeometryUnavailable
    | Abstained
    | OverlapAbsent

  /** The `i`-th chosen proof covers the byte that the ones before it left off at. */
  predicate Linked(chosen: seq<Proof>, start: int, i: int)
    requires 0 <= i < |chosen|
  {
    chosen[i].Covers(if i == 0 then start else chosen[i - 1].End())
  }

  ghost predicate Chain(chosen: seq<Proof>, proofs: seq<Proof>, eligible: Filter, start: int, next: int) {
    && (forall i :: 0 <= i < |chosen| ==> chosen[i] in proofs && eligible(chosen[i]))
    && (forall i :: 0 <= i < |chosen| ==> Linked(chosen, start, i))
    && next == if chosen == [] then start else chosen[|chosen| - 1].End()
  }

  ghost predicate InSome(chosen: seq<Proof>, x: int) {
    exists i :: 0 <= i < |chosen| && chosen[i].Covers(x)
  }

  lemma {:induction false} ChainEndsIncrease(chosen: seq<Proof>, proofs: seq<Proof>, eligible: Filter, start: int,
      next: int)
    requires Chain(chosen, proofs, eligible, start, next)
    ensures forall i, j :: 0 <= i < j < |chosen| ==> chosen[i].End() < chosen[j].End()
    ensures forall i :: 0 <= i < |chosen| ==> start < chosen[i].End() <= next
    ensures start <= next
    ensures forall x :: start <= x < next ==> InSome(chosen, x)
  {
    if chosen != [] {
      var n := |chosen| - 1;
      var prefix := chosen[..n];
      var before := if n == 0 then start else chosen[n - 1].End();
      forall i | 0 <= i < n
        ensures Linked(prefix, start, i)
      {
        assert Linked(chosen, start, i);
      }
      ChainEndsIncrease(prefix, proofs, eligible, start, before);
      assert forall i :: 0 <= i < n ==> chosen[i] == prefix[i];
      assert Linked(chosen, start, n);
      forall x | start <= x < next
        ensures InSome(chosen, x)
      {
        if x < before {
          assert InSome(prefix, x);
          var i :| 0 <= i < n && prefix[i].Covers(x);
          assert chosen[i].Covers(x);
        } else {
          assert chosen[n].Covers(x);
        }
      }
    }
  }

  /**
   A chain uses no proof twice, so it is no longer than the list it draws from; once it has used
   the whole list, nothing in the list covers the byte it has reached.
   */
  lemma ChainIsNoLonger(chosen: seq<Proof>, proofs: seq<Proof>, eligible: Filter, start: int, next: int)
    requires Chain(chosen, proofs, eligible, start, next)
    ensures |chosen| <= |proofs|
    ensures |chosen| == |proofs| ==> !Covered(proofs, eligible, next)
  {
    ChainEndsIncrease(chosen, proofs, eligible, start, next);
    var used, all := set p | p in chosen, set p | p in proofs;
    DistinctSize(chosen);
    AtMostLength(proofs);
    SubsetSize(used, all);
    if |chosen| == |proofs| {
      forall i | 0 <= i < |proofs|
        ensures !(eligible(proofs[i]) && proofs[i].Covers(next))
      {
        assert proofs[i] in all;
        assert proofs[i] in chosen;
      }
    }
  }

  lemma ChainExtends(chosen: seq<Proof>, p: Proof, proofs: seq<Proof>, eligible: Filter, start: int, next: int)
    requires Chain(chosen, proofs, eligible, start, next)
    requires p in proofs && eligible(p) && p.Covers(next)
    ensures Chain(chosen + [p], proofs, eligible, start, p.End())
  {
    var longer := chosen + [p];
    forall i | 0 <= i < |longer|
      ensures Linked(longer, start, i)
    {
      assert i < |chosen| ==> Linked(chosen, start, i);
    }
  }

  lemma {:induction false} DistinctSize(s: seq<Proof>)
    requires forall i, j :: 0 <= i < j < |s| ==> s[i] != s[j]
    ensures |set p | p in s| == |s|
  {
    if s != [] {
      var n := |s| - 1;
      DistinctSize(s[..n]);
      assert (set p | p in s) == (set p | p in s[..n]) + {s[n]};
      assert s[n] !in s[..n];
    } else {
      assert (set p | p in s) == {};
    }
  }

  lemma {:induction false} AtMostLength(s: seq<Proof>)
    ensures |set p | p in s| <= |s|
  {
    if s != [] {
      var n := |s| - 1;
      AtMostLength(s[..n]);
      assert (set p | p in s) == (set p | p in s[..n]) + {s[n]};
    } else {
      assert (set p | p in s) == {};
    }
  }

  lemma {:induction false} SubsetSize<T>(a: set<T>, b: set<T>)
    requires a <= b
    ensures |a| <= |b|
    ensures |a| == |b| ==> a == b
    decreases |a|
  {
    if a != {} {
      var x :| x in a;
      SubsetSize(a - {x}, b - {x});
      assert a == a - {x} + {x} && b == b - {x} + {x};
    } else {
      assert |b| == 0 ==> b == {};
    }
  }

  /**
   The proof-selection loop. It succeeds exactly when every byte of [start, end] lies in some
   eligible proof; the proofs' ends strictly increase, so none is used twice, and the per-window
   limit stops it only where the listed proofs leave a gap anyway.
   */
  method SelectWindow(proofs: seq<Proof>, eligible: Filter, start: int, end: int)
    returns (r: Result<seq<Proof>, WindowError>)
    requires start <= end && |proofs| <= MAX_PROOFS_PER_WINDOW
    ensures r.Ok? <==> AllCovered(proofs, eligible, start, end)
    ensures r.Err? ==> r.error == LacksProof || (r.error == ProofLimit && |proofs| == MAX_PROOFS_PER_WINDOW)
    ensures r.Ok? ==> exists next :: end < next && Chain(r.value, proofs, eligible, start, next)
    ensures r.Ok? ==> forall i, j :: 0 <= i < j < |r.value| ==> r.value[i].End() < r.value[j].End()
    ensures r.Ok? ==> forall i :: 0 <= i < |r.value| ==>
              r.value[i].offset <= end && start < r.value[i].End()
  {
    var chosen: seq<Proof> := [];
    var offset := start;
    while offset <= end
      invariant start <= offset && Chain(chosen, proofs, eligible, start, offset)
      invariant forall x :: start <= x < offset ==> Covered(proofs, eligible, x)
      invariant forall i :: 0 <= i < |chosen| ==> chosen[i].offset <= end
      decreases end - offset
    {
      if |chosen| == MAX_PROOFS_PER_WINDOW {
        // Reached only when every listed proof has been used: none of them covers this byte.
        ChainIsNoLonger(chosen, proofs, eligible, start, offset);
        assert !Covered(proofs, eligible, offset);
        return Err(ProofLimit);
      }
      var proof := ProofAt(proofs, eligible, offset);
      if proof.None? {
        assert !Covered(proofs, eligible, offset);
        return Err(LacksProof);
      }
      ghost var index :| 0 <= index < |proofs| && proofs[index] == proof.value;
      forall x | offset <= x < proof.value.End()
        ensures Covered(proofs, eligible, x)
      {
        assert eligible(proofs[index]) && proofs[index].Covers(x);
      }
      ChainExtends(chosen, proof.value, proofs, eligible, start, offset);
      chosen := chosen + [proof.value];
      offset := proof.value.End();
    }
    ChainEndsIncrease(chosen, proofs, eligible, start, offset);
    r := Ok(chosen);
  }

  function Normalized(proofs: seq<Proof>, representation: string): (r: seq<Proof>)
    ensures |r| == |proofs|
    ensures forall i :: 0 <= i < |r| ==> r[i] == proofs[i].(representation := representation)
  {
    seq(|proofs|, i requires 0 <= i < |proofs| => proofs[i].(representation := representation))
  }

  predicate InReach(size: int, start: int, end: int) {
    0 <= start <= end < size && end - start < MAX_MAPPING_PROOF_BYTES
  }

  predicate Serviceable(size: int, start: int, end: int, proofs: seq<Proof>) {
    InReach(size, start, end) && 0 < |proofs| <= MAX_PROOFS_PER_WINDOW
  }

  ghost predicate AllCovered(proofs: seq<Proof>, eligible: Filter, start: int, end: int) {
    forall x :: start <= x <= end ==> Covered(proofs, eligible, x)
  }

  /**
   The proofs a window may be built from, spelled out: an authoritative proof of a single block, from a
   torrent's pieces or Merkle tree or from PAR2, of at most 64 MiB inside the object. Proofs that were
   loaded for converged representations count for this one.
   */
  predicate Vouches(p: Proof, aliased: bool, representation: string, size: int) {
    && (aliased || p.representation == representation)
    && p.kind == Authoritative && p.scope == BlockScope && p.provenance in {TorrentPiece, TorrentMerkle, PAR2IFSC}
    && 0 <= p.offset && 0 < p.length <= 64 * 1024 * 1024 && p.End() <= size
  }

  ghost predicate Vouched(loaded: seq<Proof>, aliased: bool, representation: string, size: int, x: int) {
    exists p :: p in loaded && Vouches(p, aliased, representation, size) && p.Covers(x)
  }

  lemma CoveredMeansVouched(loaded: seq<Proof>, aliased: bool, representation: string, size: int, x: int)
    ensures Covered(if aliased then Normalized(loaded, representation) else loaded, MappedOnto(representation, size), x)
            <==> Vouched(loaded, aliased, representation, size, x)
  {
    var proofs := if aliased then Normalized(loaded, representation) else loaded;
    var eligible := MappedOnto(representation, size);
    assert forall i :: 0 <= i < |loaded| ==>
      (eligible(proofs[i]) && proofs[i].Covers(x) <==>
       Vouches(loaded[i], aliased, representation, size) && loaded[i].Covers(x));
    if p :| p in loaded && Vouches(p, aliased, representation, size) && p.Covers(x) {
      var i :| 0 <= i < |loaded| && loaded[i] == p;
      assert eligible(proofs[i]) && proofs[i].Covers(x);
    }
  }

  ghost predicate AllVouched(
      loaded: seq<Proof>, aliased: bool, representation: string, size: int, start: int, end: int)
  {
    forall x :: start <= x <= end ==> Vouched(loaded, aliased, representation, size, x)
  }

  lemma AllCoveredMeansAllVouched(
      loaded: seq<Proof>, aliased: bool, representation: string, size: int, start: int, end: int)
    ensures AllCovered(if aliased then Normalized(loaded, representation) else loaded,
                       MappedOnto(representation, size), start, end) <==>
            AllVouched(loaded, aliased, representation, size, start, end)
  {
    var proofs := if aliased then Normalized(loaded, representation) else loaded;
    forall x
      ensures Covered(proofs, MappedOnto(representation, size), x) <==>
              Vouched(loaded, aliased, representation, size, x)
    {
      CoveredMeansVouched(loaded, aliased, representation, size, x);
    }
  }

  /** Why the splice can stop at a proof. */
  ghost predicate Blocked(p: Proof, error: WindowError, geometry: Proof -> bool, recover: Proof -> Recovery) {
    if error.GeometryUnavailable? then p.provenance.TorrentMerkle? && !geometry(p)
    else error.Abstained? && !Recovered(recover(p), p)
  }

  /** Copies each recovered block over its overlap with [start, end], in the order of the window. */
  method SpliceWindow(
    window: seq<Proof>, ghost proofs: seq<Proof>, ghost eligible: Filter, start: int, end: int,
    geometry: Proof -> bool, recover: Proof -> Recovery, ghost truth: seq<byte>)
    returns (r: Result<seq<byte>, WindowError>)
    requires forall p :: eligible(p) ==> 0 <= p.offset && 0 < p.length && p.End() <= |truth|
    requires 0 <= start <= end < |truth| && Truthful(recover, truth)
    requires exists next :: end < next && Chain(window, proofs, eligible, start, next)
    requires forall i :: 0 <= i < |window| ==> window[i].offset <= end && start < window[i].End()
    ensures r.Ok? ==> r.value == truth[start..end + 1]
    ensures r.Err? ==> exists i :: 0 <= i < |window| && Blocked(window[i], r.error, geometry, recover)
    ensures r.Ok? <==> forall i :: 0 <= i < |window| ==>
              Recovered(recover(window[i]), window[i]) && (window[i].provenance.TorrentMerkle? ==> geometry(window[i]))
  {
    var result := new byte[end - start + 1];
    for i := 0 to |window|
      invariant fresh(result)
      invariant forall j :: 0 <= j < i ==>
        Recovered(recover(window[j]), window[j]) && (window[j].provenance.TorrentMerkle? ==> geometry(window[j]))
      invariant i > 0 ==> forall k :: 0 <= k < result.Length && start + k < window[i - 1].End() ==>
                result[k] == truth[start + k]
    {
      var proof := window[i];
      assert Linked(window, start, i) && eligible(proof);
      if proof.provenance.TorrentMerkle? && !geometry(proof) {
        assert Blocked(window[i], GeometryUnavailable, geometry, recover);
        return Err(GeometryUnavailable);
      }
      var block := recover(proof);
      if !Recovered(block, proof) {
        assert Blocked(window[i], Abstained, geometry, recover);
        return Err(Abstained);
      }
      var copyStart := if start > proof.offset then start else proof.offset;
      var copyEnd := if end + 1 < proof.End() then end + 1 else proof.End();
      if copyEnd <= copyStart {
        assert false;
        return Err(OverlapAbsent);
      }
      CopyOverlap(result, start, block.data, proof.offset, copyStart, copyEnd, truth);
    }
    assert result[..] == truth[start..end + 1];
    r := Ok(result[..]);
  }

  /** copy(result[copyStart-start:copyEnd-start], data[copyStart-offset:copyEnd-offset]) */
  method CopyOverlap(
      result: array<byte>, start: int, data: seq<byte>, offset: int, copyStart: int, copyEnd: int,
      ghost truth: seq<byte>)
    requires 0 <= start <= copyStart < copyEnd <= start + result.Length && start + result.Length <= |truth|
    requires 0 <= offset <= copyStart && copyEnd <= offset + |data| <= |truth|
    requires data == truth[offset..offset + |data|]
    modifies result
    ensures forall k :: 0 <= k < result.Length ==>
              result[k] == if copyStart <= start + k < copyEnd then truth[start + k] else old(result[k])
  {
    forall k | copyStart - start <= k < copyEnd - start {
      result[k] := data[start + k - offset];
    }
  }

  /**
   recoverHTTPCrossLaneWindow from the loaded proofs on. `aliased` says that the representation has
   converged with others, `hasCandidates` that some route may hold the bytes, `geometry` whether a
   Merkle proof's digest geometry can be rebuilt.
   */
  method RecoverWindow(
    loaded: seq<Proof>, aliased: bool, representation: string, size: int, start: int, end: int,
    hasCandidates: bool, geometry: Proof -> bool, recover: Proof -> Recovery, ghost truth: seq<byte>)
    returns (r: Result<seq<byte>, WindowError>)
    requires |truth| == size && Truthful(recover, truth)
    ensures r.Ok? ==> Serviceable(size, start, end, loaded) && r.value == truth[start..end + 1]
    ensures r == Err(Unavailable) <==> !(0 <= start <= end < size && end - start < 64 * 1024 * 1024)
    ensures r == Err(ProofUnavailable) <==> InReach(size, start, end) && !(0 < |loaded| <= 4096)
    ensures var vouched := AllVouched(loaded, aliased, representation, size, start, end);
            && (r == Err(LacksProof) || r == Err(ProofLimit) <==> Serviceable(size, start, end, loaded) && !vouched)
            && (r == Err(CandidatesUnavailable) <==> Serviceable(size, start, end, loaded) && vouched && !hasCandidates)
            && (r.Ok? ==> vouched && hasCandidates)
    ensures var proofs := if aliased then Normalized(loaded, representation) else loaded;
            var eligible := MappedOnto(representation, size);
            && (r == Err(ProofLimit) ==> |loaded| == 4096)
            && (r == Err(GeometryUnavailable) || r == Err(Abstained) ==>
                  exists p :: p in proofs && eligible(p) && Blocked(p, r.error, geometry, recover))
    ensures r != Err(OverlapAbsent)
  {
    if start < 0 || end < start || end >= size || end - start >= MAX_MAPPING_PROOF_BYTES {
      return Err(Unavailable);
    }
    if |loaded| == 0 || |loaded| > MAX_PROOFS_PER_WINDOW {
      return Err(ProofUnavailable);
    }
    var proofs := if aliased then Normalized(loaded, representation) else loaded;
    var eligible := MappedOnto(representation, size);
    AllCoveredMeansAllVouched(loaded, aliased, representation, size, start, end);
    var selection := SelectWindow(proofs, eligible, start, end);
    if selection.Err? {
      return Err(selection.error);
    }
    if !hasCandidates {
      return Err(CandidatesUnavailable);
    }
    var window := selection.value;
    r := SpliceWindow(window, proofs, eligible, start, end, geometry, recover, truth);
    if r.Err? {
      ghost var i :| 0 <= i < |window| && Blocked(window[i], r.error, geometry, recover);
      assert window[i] in proofs && eligible(window[i]);
    }
  }
}
