/**
 Content proofs over spans of an object, and the scan that both cross-lane readers use to pick the
 proof to recover next: among the eligible proofs of a byte, the one that ends first.
 */
module Proofs {
  import opened Wrappers

  type byte = x | 0 <= x < 256

  datatype Kind = Authoritative | SameOrigin | Candidate
  datatype Scope = BlockScope | WholeScope
  datatype Provenance =
    | TorrentPiece | TorrentMerkle | PAR2IFSC
    | IADigest | HTTPDigest | Metalink
    | SameOriginETag | PlaybackObserved | CandidateHint

  datatype Proof = Proof(
    representation: string,
    kind: Kind,
    scope: Scope,
    offset: int,
    length: int,
    provenance: Provenance)
  {
    function End(): int { offset + length }

    predicate Covers(x: int) { offset <= x < End() }
  }

  /** The checks on a proof that do not depend on the byte looked for. */
  type Filter = Proof -> bool

  /** Some eligible proof covers the byte. */
  ghost predicate Covered(proofs: seq<Proof>, eligible: Filter, x: int) {
    exists i :: 0 <= i < |proofs| && eligible(proofs[i]) && proofs[i].Covers(x)
  }

  /** `p` is an eligible proof of the byte, and none of them ends earlier. */
  ghost predicate EarliestEnding(p: Proof, proofs: seq<Proof>, eligible: Filter, x: int) {
    && p in proofs && eligible(p) && p.Covers(x)
    && forall i :: 0 <= i < |proofs| && eligible(proofs[i]) && proofs[i].Covers(x) ==> p.End() <= proofs[i].End()
  }

  method ProofAt(proofs: seq<Proof>, eligible: Filter, x: int) returns (selected: Option<Proof>)
    ensures selected.Some? <==> Covered(proofs, eligible, x)
    ensures selected.Some? ==> EarliestEnding(selected.value, proofs, eligible, x)
  {
    selected := None;
    for i := 0 to |proofs|
      invariant selected.Some? <==> Covered(proofs[..i], eligible, x)
      invariant selected.Some? ==> EarliestEnding(selected.value, proofs[..i], eligible, x)
    {
      var p := proofs[i];
      assert proofs[..i + 1] == proofs[..i] + [p];
      assert proofs[..i + 1][i] == p;
      if eligible(p) && p.Covers(x) && (selected.None? || p.End() < selected.value.End()) {
        selected := Some(p);
      }
    }
    assert proofs[..|proofs|] == proofs;
  }

  // ---------------------------------------------------------------- recovery

  /** What RecoverBlock hands back; `proven` is the decision that the data matches the proof. */
  datatype Recovery = Failed | Block(proven: bool, data: seq<byte>)

  predicate Recovered(r: Recovery, p: Proof) {
    r.Block? && r.proven && |r.data| == p.length
  }

  /** The oracle's contract: proven data of the right length is the true bytes of the proof's span. */
  ghost predicate Truthful(recover: Proof -> Recovery, truth: seq<byte>) {
    forall p: Proof :: Recovered(recover(p), p) && 0 <= p.offset && p.End() <= |truth| ==>
                         recover(p).data == truth[p.offset..p.End()]
  }
}
