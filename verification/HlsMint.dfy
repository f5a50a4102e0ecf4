/**
 Child minting and cleanup of an HLS playlist rewrite, internal/api/hls.go: the children a parent
 already has are reused by coordinate, missing ones are registered, and stale ones are deleted once
 the whole playlist has been rewritten. The session's resources are kept in listing order.
 */
module HlsMint {
  import opened Wrappers

  datatype Kind = Master | Media | Segment | Map | Key | Subtitle

  /** The coordinates that a child's key, a playlist entry and a stored reference share. */
  datatype Coordinates = Coordinates(
    mediaSequence: int, hasMediaSequence: bool,
    partIndex: int, hasPartIndex: bool,
    renditionIndex: int, hasRenditionIndex: bool,
    mediaStartNS: int, mediaEndNS: int, hasMediaTime: bool,
    mediaDurationNS: int, hasMediaDuration: bool)

  datatype Entry = Entry(kind: Kind, at: Coordinates, byteStart: int, byteEnd: int, pathwayID: string)

  datatype Reference = Reference(
    handler: string, backendID: string, selector: string, ordinal: int,
    byteStart: int, byteEnd: int, at: Coordinates, pathwayID: string)

  datatype Resource = Resource(id: string, kind: Kind, reference: Reference)

  datatype ChildKey = ChildKey(kind: Kind, ordinal: int, at: Coordinates)

  /** Live and rendition coordinates stand on their own; the ordinal only names plain entries. */
  function KeyOf(kind: Kind, ordinal: int, at: Coordinates): ChildKey {
    ChildKey(kind, if at.hasMediaSequence || at.hasRenditionIndex then 0 else ordinal, at)
  }

  function ResourceKey(r: Resource): ChildKey {
    KeyOf(r.kind, r.reference.ordinal, r.reference.at)
  }

  function ResourcePath(id: string, kind: Kind, parentKind: Kind): string {
    "/hls/" + id + match kind
                   case Master => ".m3u8"
                   case Media => ".m3u8"
                   case Subtitle => ".m3u8"
                   case Map => ".mp4"
                   case Key => ".key"
                   case Segment => if parentKind.Subtitle? then ".vtt" else ".ts"
  }

  predicate IsChild(r: Resource, parentID: string) {
    r.reference.selector == parentID
  }

  predicate HasKey(r: Resource, parentID: string, key: ChildKey) {
    IsChild(r, parentID) && ResourceKey(r) == key
  }

  /** Two children of the parent that stand for the same playlist entry. */
  predicate SameChild(a: Resource, b: Resource, parentID: string) {
    IsChild(a, parentID) && IsChild(b, parentID) && ResourceKey(a) == ResourceKey(b)
  }

  /** The child listed first among those with its key. */
  ghost predicate IsFirst(rs: seq<Resource>, parentID: string, key: ChildKey, i: int) {
    && 0 <= i < |rs| && HasKey(rs[i], parentID, key)
    && forall j :: 0 <= j < i ==> !HasKey(rs[j], parentID, key)
  }

  ghost predicate FirstIs(rs: seq<Resource>, parentID: string, key: ChildKey, id: string) {
    exists i :: IsFirst(rs, parentID, key, i) && rs[i].id == id
  }

  /** What the repository guarantees: unique ids and validated references. */
  ghost predicate Stored(rs: seq<Resource>) {
    && (forall i, j :: 0 <= i < j < |rs| ==> rs[i].id != rs[j].id)
    && (forall i :: 0 <= i < |rs| && rs[i].reference.at.hasMediaSequence ==> rs[i].reference.at.mediaSequence >= 0)
  }

  ghost predicate KnownMatches(known: map<ChildKey, string>, rs: seq<Resource>, parentID: string) {
    && (forall key :: key in known ==> FirstIs(rs, parentID, key, known[key]))
    && (forall i :: 0 <= i < |rs| && IsChild(rs[i], parentID) ==> ResourceKey(rs[i]) in known)
  }

  ghost predicate DuplicatesMatch(duplicates: seq<string>, rs: seq<Resource>, parentID: string) {
    && (forall d :: d in duplicates ==> exists i :: 0 <= i < |rs| && rs[i].id == d && IsDuplicate(rs, parentID, i))
    && (forall i :: 0 <= i < |rs| && IsDuplicate(rs, parentID, i) ==> rs[i].id in duplicates)
  }

  /** A child listed after another with the same key. */
  ghost predicate IsDuplicate(rs: seq<Resource>, parentID: string, i: int) {
    0 <= i < |rs| && IsChild(rs[i], parentID) && !IsFirst(rs, parentID, ResourceKey(rs[i]), i)
  }

  /** The first scan of hlsMintFunc. */
  method LoadChildren(
      existing: seq<Resource>, parentID: string)
    returns (known: map<ChildKey, string>, duplicates: seq<string>)
    ensures KnownMatches(known, existing, parentID)
    ensures DuplicatesMatch(duplicates, existing, parentID)
  {
    known, duplicates := map[], [];
    for i := 0 to |existing|
      invariant Loaded(known, duplicates, existing[..i], parentID)
    {
      var r := existing[i];
      LoadedAfterOne(known, duplicates, existing, i, parentID);
      if r.reference.selector == parentID {
        var key := ResourceKey(r);
        if key in known {
          duplicates := duplicates + [r.id];
        } else {
          known := known[key := r.id];
        }
      }
    }
    assert existing[..|existing|] == existing;
  }

  ghost predicate Loaded(known: map<ChildKey, string>, duplicates: seq<string>, rs: seq<Resource>, parentID: string) {
    KnownMatches(known, rs, parentID) && DuplicatesMatch(duplicates, rs, parentID)
  }

  lemma LoadedAfterOne(
      known: map<ChildKey, string>, duplicates: seq<string>, existing: seq<Resource>, i: nat, parentID: string)
    requires i < |existing| && Loaded(known, duplicates, existing[..i], parentID)
    ensures var r := existing[i];
            if !IsChild(r, parentID) then Loaded(known, duplicates, existing[..i + 1], parentID)
            else if ResourceKey(r) in known then Loaded(known, duplicates + [r.id], existing[..i + 1], parentID)
            else Loaded(known[ResourceKey(r) := r.id], duplicates, existing[..i + 1], parentID)
  {
    var rs, r := existing[..i], existing[i];
    assert existing[..i + 1] == rs + [r];
    DuplicatesAfterOne(known, duplicates, rs, r, parentID);
    if IsChild(r, parentID) && ResourceKey(r) !in known {
      RegisterKeepsKnown(known, rs, r, parentID);
    } else {
      KnownAfterOne(known, rs, r, parentID);
    }
  }

  lemma KnownAfterOne(known: map<ChildKey, string>, rs: seq<Resource>, r: Resource, parentID: string)
    requires KnownMatches(known, rs, parentID)
    requires IsChild(r, parentID) ==> ResourceKey(r) in known
    ensures KnownMatches(known, rs + [r], parentID)
  {
    forall key | key in known
      ensures FirstIs(rs + [r], parentID, key, known[key])
    {
      AppendKeepsFirst(rs, r, parentID, key, known[key]);
    }
  }

  /** A child is a duplicate exactly if its key is known already. */
  lemma DuplicatesAfterOne(
      known: map<ChildKey, string>, duplicates: seq<string>, rs: seq<Resource>, r: Resource, parentID: string)
    requires KnownMatches(known, rs, parentID) && DuplicatesMatch(duplicates, rs, parentID)
    ensures DuplicatesMatch(if IsChild(r, parentID) && ResourceKey(r) in known then duplicates + [r.id]
            else duplicates, rs + [r], parentID)
  {
    var longer, n := rs + [r], |rs|;
    forall i | 0 <= i < n
      ensures longer[i] == rs[i] && (IsDuplicate(longer, parentID, i) <==> IsDuplicate(rs, parentID, i))
    {
      assert forall j :: 0 <= j <= i ==> longer[j] == rs[j];
    }
    LastIsDuplicate(known, rs, r, parentID);
    var after := if IsChild(r, parentID) && ResourceKey(r) in known then duplicates + [r.id] else duplicates;
    forall d | d in after
      ensures exists i :: 0 <= i < |longer| && longer[i].id == d && IsDuplicate(longer, parentID, i)
    {
      if d in duplicates {
        var i :| 0 <= i < n && rs[i].id == d && IsDuplicate(rs, parentID, i);
        assert longer[i].id == d && IsDuplicate(longer, parentID, i);
      } else {
        assert longer[n].id == d && IsDuplicate(longer, parentID, n);
      }
    }
  }

  lemma LastIsDuplicate(known: map<ChildKey, string>, rs: seq<Resource>, r: Resource, parentID: string)
    requires KnownMatches(known, rs, parentID)
    ensures IsDuplicate(rs + [r], parentID, |rs|) <==> IsChild(r, parentID) && ResourceKey(r) in known
  {
    var longer, n, key := rs + [r], |rs|, ResourceKey(r);
    if IsChild(r, parentID) {
      if key in known {
        var i :| IsFirst(rs, parentID, key, i) && rs[i].id == known[key];
        assert HasKey(longer[i], parentID, key);
      } else {
        forall j | 0 <= j < n
          ensures !HasKey(longer[j], parentID, key)
        {
          assert longer[j] == rs[j];
        }
      }
    }
  }

  /** DeleteResources: what is left keeps its order. */
  function Surviving(rs: seq<Resource>, removed: set<string>): seq<Resource> {
    if rs == [] then []
    else
      var last := rs[|rs| - 1];
      Surviving(rs[..|rs| - 1], removed) + if last.id in removed then [] else [last]
  }

  lemma {:induction false} SurvivingIs(rs: seq<Resource>, removed: set<string>)
    ensures forall r :: r in Surviving(rs, removed) <==> r in rs && r.id !in removed
    ensures Stored(rs) ==> Stored(Surviving(rs, removed))
  {
    if rs != [] {
      var n := |rs| - 1;
      var prefix, left := rs[..n], Surviving(rs[..n], removed);
      SurvivingIs(prefix, removed);
      assert rs == prefix + [rs[n]];
      if Stored(rs) {
        assert Stored(prefix);
        var all := Surviving(rs, removed);
        forall i, j | 0 <= i < j < |all|
          ensures all[i].id != all[j].id
        {
          assert i < |left| && all[i] == left[i] && left[i] in left;
        }
        forall i | 0 <= i < |all| && all[i].reference.at.hasMediaSequence
          ensures all[i].reference.at.mediaSequence >= 0
        {
          assert all[i] in all;
        }
      }
    }
  }

  /** Deleting other resources leaves the first child of a key the first. */
  lemma {:induction false} FirstSurvives(rs: seq<Resource>, removed: set<string>, parentID: string, key: ChildKey,
      i: int)
    requires IsFirst(rs, parentID, key, i) && rs[i].id !in removed
    ensures FirstIs(Surviving(rs, removed), parentID, key, rs[i].id)
    decreases |rs|
  {
    var n := |rs| - 1;
    var left := Surviving(rs[..n], removed);
    if i < n {
      FirstSurvives(rs[..n], removed, parentID, key, i);
      var k :| IsFirst(left, parentID, key, k) && left[k].id == rs[i].id;
      assert IsFirst(Surviving(rs, removed), parentID, key, k);
    } else {
      SurvivingIs(rs[..n], removed);
      assert forall k :: 0 <= k < |left| ==> left[k] in rs[..n];
      assert IsFirst(Surviving(rs, removed), parentID, key, |left|);
    }
  }

  predicate ValidReference(ref: Reference) {
    ref.at.hasMediaSequence ==> ref.at.mediaSequence >= 0
  }

  ghost predicate Unused(rs: seq<Resource>, id: string) {
    forall i :: 0 <= i < |rs| ==> rs[i].id != id
  }

  lemma AppendKeepsFirst(rs: seq<Resource>, r: Resource, parentID: string, key: ChildKey, id: string)
    requires FirstIs(rs, parentID, key, id)
    ensures FirstIs(rs + [r], parentID, key, id)
  {
    var i :| IsFirst(rs, parentID, key, i) && rs[i].id == id;
    assert IsFirst(rs + [r], parentID, key, i);
  }

  /** Registering a child whose key is unknown keeps the table of known children exact. */
  lemma RegisterKeepsKnown(known: map<ChildKey, string>, rs: seq<Resource>, r: Resource, parentID: string)
    requires KnownMatches(known, rs, parentID)
    requires IsChild(r, parentID) && ResourceKey(r) !in known
    ensures KnownMatches(known[ResourceKey(r) := r.id], rs + [r], parentID)
  {
    var longer := rs + [r];
    assert IsFirst(longer, parentID, ResourceKey(r), |rs|);
    forall key | key in known
      ensures FirstIs(longer, parentID, key, known[key])
    {
      AppendKeepsFirst(rs, r, parentID, key, known[key]);
    }
  }

  /** The resources of one playback session, in listing order. */
  class Graph {
    var resources: seq<Resource>

    constructor ()
      ensures resources == []
    {
      resources := [];
    }

    /** `drawn` is the identifier drawn, or nothing when the session is full or the store fails. */
    method Register(kind: Kind, ref: Reference, drawn: Option<string>) returns (id: Option<string>)
      requires Stored(resources)
      requires drawn.Some? ==> Unused(resources, drawn.value)
      modifies this
      ensures Stored(resources)
      ensures id == if ValidReference(ref) then drawn else None
      ensures resources == old(resources) + if id.Some? then [Resource(id.value, kind, ref)] else []
    {
      if !ValidReference(ref) || drawn.None? {
        return None;
      }
      resources := resources + [Resource(drawn.value, kind, ref)];
      id := drawn;
    }

    method Delete(ids: seq<string>)
      requires Stored(resources)
      modifies this
      ensures Stored(resources)
      ensures resources == Surviving(old(resources), set d | d in ids)
    {
      SurvivingIs(resources, set d | d in ids);
      resources := Surviving(resources, set d | d in ids);
    }
  }

  /** What a rewrite has seen of the playlist: the least media sequence, or -1, and the live segments. */
  function SequenceAfter(minSequence: int, e: Entry): int {
    if e.at.hasMediaSequence && (minSequence < 0 || e.at.mediaSequence < minSequence) then e.at.mediaSequence
    else minSequence
  }

  function LiveAfter(live: set<int>, e: Entry): set<int> {
    if e.at.hasMediaSequence && e.kind.Segment? then live + {e.at.mediaSequence} else live
  }

  /** A stored child that fell out of the retained window. */
  predicate Stale(r: Resource, parentID: string, minSequence: int, retain: int) {
    && IsChild(r, parentID) && r.reference.at.hasMediaSequence
    && r.reference.at.mediaSequence < if minSequence > retain then minSequence - retain else 0
  }

  /** No live child before the first sequence retained, and no two children of one key. */
  ghost predicate Clean(rs: seq<Resource>, parentID: string, first: int) {
    && (forall r :: r in rs && IsChild(r, parentID) && r.reference.at.hasMediaSequence ==>
          r.reference.at.mediaSequence >= first)
    && (forall a, b :: a in rs && b in rs && SameChild(a, b, parentID) ==> a == b)
  }

  ghost predicate Extends(rs: seq<Resource>, existing: seq<Resource>) {
    |existing| <= |rs| && rs[..|existing|] == existing
  }

  /** A child registered by this rewrite: the first of its key, and not older than the playlist. */
  ghost predicate New(rs: seq<Resource>, i: int, parentID: string, minSequence: int)
    requires 0 <= i < |rs|
  {
    && IsChild(rs[i], parentID) && IsFirst(rs, parentID, ResourceKey(rs[i]), i)
    && (rs[i].reference.at.hasMediaSequence ==> 0 <= minSequence <= rs[i].reference.at.mediaSequence)
  }

  /** The rewrite's notes about what it has seen agree with what it did. */
  ghost predicate Noted(
      rs: seq<Resource>, listed: nat, known: map<ChildKey, string>, parentID: string, minSequence: int,
      seen: set<ChildKey>)
    requires listed <= |rs|
  {
    && minSequence >= -1
    && (forall i :: listed <= i < |rs| ==> New(rs, i, parentID, minSequence))
    && (forall key :: key in seen ==> key in known)
    && (forall key :: key in seen && key.at.hasMediaSequence ==> 0 <= minSequence <= key.at.mediaSequence)
  }

  lemma ReuseKeepsNotes(
      rs: seq<Resource>, n: nat, known: map<ChildKey, string>, parentID: string, minSequence: int,
      seen: set<ChildKey>, ordinal: int, e: Entry)
    requires Stored(rs) && n <= |rs| && KnownMatches(known, rs, parentID) &&
             Noted(rs, n, known, parentID, minSequence, seen)
    requires KeyOf(e.kind, ordinal, e.at) in known
    ensures Noted(rs, n, known, parentID, SequenceAfter(minSequence, e), seen + {KeyOf(e.kind, ordinal, e.at)})
  {
    KnownIsStored(known, rs, parentID, KeyOf(e.kind, ordinal, e.at));
    forall i | n <= i < |rs|
      ensures New(rs, i, parentID, SequenceAfter(minSequence, e))
    {
      assert New(rs, i, parentID, minSequence);
    }
  }

  lemma RegisterKeepsNotes(
      rs: seq<Resource>, n: nat, known: map<ChildKey, string>, parentID: string, minSequence: int,
      seen: set<ChildKey>, e: Entry, child: Resource)
    requires n <= |rs| && KnownMatches(known, rs, parentID) && Noted(rs, n, known, parentID, minSequence, seen)
    requires IsChild(child, parentID) && ResourceKey(child) !in known
    requires child.reference.at == e.at && ValidReference(child.reference)
    ensures Noted(rs + [child], n, known[ResourceKey(child) := child.id], parentID, SequenceAfter(minSequence, e),
            seen + {ResourceKey(child)})
  {
    var longer := rs + [child];
    forall i | n <= i < |longer|
      ensures New(longer, i, parentID, SequenceAfter(minSequence, e))
    {
      if i < |rs| {
        assert New(rs, i, parentID, minSequence);
      }
    }
  }

  /** What registering a child stores: its parent, its coordinates, and a pathway, its own or the parent's. */
  function ChildReference(parent: Resource, ordinal: int, e: Entry): Reference {
    Reference(parent.reference.handler, parent.reference.backendID, parent.id, ordinal,
              e.byteStart, e.byteEnd, e.at,
              if e.pathwayID == "" then parent.reference.pathwayID else e.pathwayID)
  }

  /** The child is the one of this entry of the parent's playlist, with its byte range and a pathway. */
  predicate StandsFor(r: Resource, parent: Resource, ordinal: int, e: Entry) {
    && r.kind == e.kind && r.reference.at == e.at
    && r.reference.byteStart == e.byteStart && r.reference.byteEnd == e.byteEnd
    && r.reference.ordinal == ordinal && r.reference.selector == parent.id
    && r.reference.handler == parent.reference.handler && r.reference.backendID == parent.reference.backendID
    && r.reference.pathwayID == if e.pathwayID != "" then e.pathwayID else parent.reference.pathwayID
  }

  /** The closures of hlsMintFunc and the variables they share. */
  class Minter {
    const graph: Graph
    const parent: Resource
    const existing: seq<Resource>
    const duplicates: seq<string>
    var known: map<ChildKey, string>
    var minSequence: int
    var liveSequences: set<int>
    ghost var seen: set<ChildKey>  // the keys the playlist has referenced so far

    ghost predicate Valid()
      reads this, graph
    {
      && Extends(graph.resources, existing)
      && Stored(graph.resources)
      && DuplicatesMatch(duplicates, existing, parent.id)
      && KnownMatches(known, graph.resources, parent.id)
      && Noted(graph.resources, |existing|, known, parent.id, minSequence, seen)
    }

    constructor (graph: Graph, parent: Resource)
      requires Stored(graph.resources)
      ensures Valid() && this.graph == graph && this.parent == parent && existing == graph.resources
      ensures minSequence == -1 && liveSequences == {} && seen == {}
    {
      var k, d := LoadChildren(graph.resources, parent.id);
      this.graph, this.parent, this.existing := graph, parent, graph.resources;
      known, duplicates := k, d;
      minSequence, liveSequences, seen := -1, {}, {};
      new;
      assert graph.resources[..|existing|] == existing;
    }

    method Mint(ordinal: int, e: Entry, drawn: Option<string>) returns (path: Option<string>)
      requires Valid()
      requires drawn.Some? ==> Unused(graph.resources, drawn.value)
      modifies this, graph
      ensures path.Some? ==> Valid()
      ensures path.None? ==> graph.resources == old(graph.resources)
      ensures Stored(graph.resources)
      ensures var key := KeyOf(e.kind, ordinal, e.at);
              && (path.Some? ==>
                    && key in known && path.value == ResourcePath(known[key], e.kind, parent.kind)
                    && seen == old(seen) + {key}
                    && minSequence == SequenceAfter(old(minSequence), e)
                    && liveSequences == LiveAfter(old(liveSequences), e)
                    && (forall k :: k in old(known) ==> k in known && known[k] == old(known)[k]))
              && (key in old(known) ==> path.Some? && graph.resources == old(graph.resources) && known == old(known))
              && (key !in old(known) && path.Some? ==>
                    drawn.Some? &&
                    graph.resources == old(graph.resources) + [Resource(drawn.value, e.kind,
                      ChildReference(parent, ordinal, e))])
    {
      var key := KeyOf(e.kind, ordinal, e.at);
      Note(e);
      seen := seen + {key};
      if key in known {
        ReuseKeepsNotes(graph.resources, |existing|, known, parent.id, old(minSequence), old(seen), ordinal, e);
        return Some(ResourcePath(known[key], e.kind, parent.kind));
      }
      path := RegisterChild(ordinal, e, drawn, old(minSequence), old(seen));
    }

    /** What the mint closure notes of an entry before it looks its key up. */
    method Note(e: Entry)
      modifies this`minSequence, this`liveSequences
      ensures minSequence == SequenceAfter(old(minSequence), e) && liveSequences == LiveAfter(old(liveSequences), e)
    {
      if e.at.hasMediaSequence {
        if minSequence < 0 || e.at.mediaSequence < minSequence {
          minSequence := e.at.mediaSequence;
        }
        if e.kind.Segment? {
          liveSequences := liveSequences + {e.at.mediaSequence};
        }
      }
    }

    /** The end of the mint closure, for a key that no child has yet. */
    method RegisterChild(ordinal: int, e: Entry, drawn: Option<string>, ghost noted: int, ghost before: set<ChildKey>)
      returns (path: Option<string>)
      requires var key := KeyOf(e.kind, ordinal, e.at);
               && Extends(graph.resources, existing) && Stored(graph.resources)
               && DuplicatesMatch(duplicates, existing, parent.id)
               && KnownMatches(known, graph.resources, parent.id)
               && Noted(graph.resources, |existing|, known, parent.id, noted, before)
               && key !in known && seen == before + {key} && minSequence == SequenceAfter(noted, e)
      requires drawn.Some? ==> Unused(graph.resources, drawn.value)
      modifies this`known, graph
      ensures Stored(graph.resources)
      ensures path.None? ==> graph.resources == old(graph.resources)
      ensures path.Some? ==>
                && Valid() && drawn.Some?
                && path.value == ResourcePath(drawn.value, e.kind, parent.kind)
                && known == old(known)[KeyOf(e.kind, ordinal, e.at) := drawn.value]
                && graph.resources == old(graph.resources) + [Resource(drawn.value, e.kind,
                  ChildReference(parent, ordinal, e))]
    {
      var ref := ChildReference(parent, ordinal, e);
      ghost var earlier := graph.resources;
      var id := graph.Register(e.kind, ref, drawn);
      if id.None? {
        return None;
      }
      ghost var child := Resource(id.value, e.kind, ref);
      RegisterKeepsKnown(known, earlier, child, parent.id);
      RegisterKeepsNotes(earlier, |existing|, known, parent.id, noted, before, e, child);
      assert graph.resources[..|existing|] == earlier[..|existing|];
      known := known[KeyOf(e.kind, ordinal, e.at) := id.value];
      path := Some(ResourcePath(id.value, e.kind, parent.kind));
    }

    /**
     The cleanup closure. Nothing the playlist refers to is deleted; no stored live child older than
     the retained window is left, and no second child of any key.
     */
    method Cleanup()
      requires Valid()
      modifies graph
      ensures Stored(graph.resources)
      ensures forall r :: r in graph.resources ==> r in old(graph.resources)
      ensures minSequence < 0 ==> graph.resources == old(graph.resources)
      ensures minSequence >= 0 ==>
                KeepsExactly(old(graph.resources), graph.resources, parent.id, minSequence - |liveSequences|)
      ensures minSequence >= 0 ==> exists removed ::
                && RemovesExactly(old(graph.resources), existing, parent.id, minSequence, |liveSequences|, removed)
                && graph.resources == Surviving(old(graph.resources), removed)
      ensures minSequence >= 0 ==> Clean(graph.resources, parent.id, minSequence - |liveSequences|)
      ensures forall key :: key in seen ==> FirstIs(graph.resources, parent.id, key, known[key])
      ensures forall r :: r in old(graph.resources) && !IsChild(r, parent.id) ==> r in graph.resources
    {
      if minSequence < 0 {
        return;
      }
      var cutoff := 0;
      if minSequence > |liveSequences| {
        cutoff := minSequence - |liveSequences|;
      }
      var remove := duplicates;
      for i := 0 to |existing|
        invariant forall d :: d in remove <==>
                    (d in duplicates || d in StaleIds(existing[..i], parent.id, minSequence, |liveSequences|))
      {
        var r := existing[i];
        assert existing[..i + 1][..i] == existing[..i];
        if r.reference.selector == parent.id && r.reference.at.hasMediaSequence &&
          r.reference.at.mediaSequence < cutoff {
          remove := remove + [r.id];
        }
      }
      assert existing[..|existing|] == existing;
      ghost var removed := set d | d in remove;
      RemovedAre(graph.resources, existing, duplicates, parent.id, minSequence, |liveSequences|, removed);
      CleanupIsSafe(graph.resources, existing, known, parent.id, minSequence, |liveSequences|, seen, removed);
      SurvivorsAreKept(graph.resources, existing, parent.id, minSequence, |liveSequences|, removed);
      SurvivingIs(graph.resources, removed);
      graph.Delete(remove);
    }
  }

  function StaleIds(rs: seq<Resource>, parentID: string, minSequence: int, retain: int): set<string> {
    if rs == [] then {}
    else
      var last := rs[|rs| - 1];
      StaleIds(rs[..|rs| - 1], parentID, minSequence, retain) +
      if Stale(last, parentID, minSequence, retain) then {last.id} else {}
  }

  lemma {:induction false} StaleIdsAre(rs: seq<Resource>, parentID: string, minSequence: int, retain: int)
    ensures forall d :: d in StaleIds(rs, parentID, minSequence, retain) <==>
              exists i :: 0 <= i < |rs| && rs[i].id == d && Stale(rs[i], parentID, minSequence, retain)
  {
    if rs != [] {
      var n := |rs| - 1;
      StaleIdsAre(rs[..n], parentID, minSequence, retain);
      forall d
        ensures d in StaleIds(rs, parentID, minSequence, retain) <==>
                exists i :: 0 <= i < |rs| && rs[i].id == d && Stale(rs[i], parentID, minSequence, retain)
      {
        if i :| 0 <= i < |rs| && rs[i].id == d && Stale(rs[i], parentID, minSequence, retain) {
          assert i < n ==> rs[..n][i] == rs[i];
        }
      }
    }
  }

  /** Which of the session's resources the cleanup takes: duplicates and stale children, nothing else. */
  ghost predicate RemovesExactly(
      rs: seq<Resource>, existing: seq<Resource>, parentID: string, minSequence: int, retain: int,
      removed: set<string>)
  {
    forall i :: 0 <= i < |rs| ==> (rs[i].id in removed <==> Removable(rs, existing, parentID, minSequence, retain, i))
  }

  /** Listed before the rewrite, and a duplicate or stale. */
  ghost predicate Removable(
      rs: seq<Resource>, existing: seq<Resource>, parentID: string, minSequence: int, retain: int, i: int)
    requires 0 <= i < |rs|
  {
    i < |existing| && (IsDuplicate(existing, parentID, i) || Stale(rs[i], parentID, minSequence, retain))
  }

  lemma RemovedAre(
      rs: seq<Resource>, existing: seq<Resource>, duplicates: seq<string>, parentID: string, minSequence: int,
      retain: int, removed: set<string>)
    requires Stored(rs) && Extends(rs, existing) && DuplicatesMatch(duplicates, existing, parentID)
    requires forall d :: d in removed <==> d in duplicates || d in StaleIds(existing, parentID, minSequence, retain)
    ensures RemovesExactly(rs, existing, parentID, minSequence, retain, removed)
  {
    StaleIdsAre(existing, parentID, minSequence, retain);
    assert forall i :: 0 <= i < |existing| ==> existing[i] == rs[i];
    forall i | 0 <= i < |rs|
      ensures rs[i].id in removed <==> Removable(rs, existing, parentID, minSequence, retain, i)
    {
      if rs[i].id in duplicates {
        var k :| 0 <= k < |existing| && existing[k].id == rs[i].id && IsDuplicate(existing, parentID, k);
        assert k == i;
      }
      if rs[i].id in StaleIds(existing, parentID, minSequence, retain) {
        var k :| 0 <= k < |existing| && existing[k].id == rs[i].id && Stale(existing[k], parentID, minSequence, retain);
        assert k == i;
      }
    }
  }

  /** Somebody else's child, or the first of its key and not before the first sequence still retained. */
  ghost predicate ToKeep(rs: seq<Resource>, parentID: string, first: int, i: int)
    requires 0 <= i < |rs|
  {
    !IsChild(rs[i], parentID) ||
    (IsFirst(rs, parentID, ResourceKey(rs[i]), i) &&
     (rs[i].reference.at.hasMediaSequence ==> rs[i].reference.at.mediaSequence >= first))
  }

  ghost predicate KeepsExactly(before: seq<Resource>, after: seq<Resource>, parentID: string, first: int) {
    forall i :: 0 <= i < |before| ==> (before[i] in after <==> ToKeep(before, parentID, first, i))
  }

  /** The retained window, spelled out. */
  lemma SurvivorsAreKept(
    rs: seq<Resource>, existing: seq<Resource>, parentID: string, minSequence: int, retain: nat,
      removed: set<string>)
    requires Extends(rs, existing) && Stored(rs) && minSequence >= 0
    requires forall i :: |existing| <= i < |rs| ==> New(rs, i, parentID, minSequence)
    requires RemovesExactly(rs, existing, parentID, minSequence, retain, removed)
    ensures KeepsExactly(rs, Surviving(rs, removed), parentID, minSequence - retain)
  {
    SurvivingIs(rs, removed);
    forall i | 0 <= i < |rs|
      ensures rs[i] in Surviving(rs, removed) <==> ToKeep(rs, parentID, minSequence - retain, i)
    {
      assert rs[i] in Surviving(rs, removed) <==> !Removable(rs, existing, parentID, minSequence, retain, i);
      if i < |existing| {
        FirstInPrefix(rs, existing, parentID, i);
      } else {
        assert New(rs, i, parentID, minSequence);
      }
    }
  }

  /** Resources listed later do not change which child of a key is the first. */
  lemma FirstInPrefix(rs: seq<Resource>, existing: seq<Resource>, parentID: string, i: nat)
    requires Extends(rs, existing) && i < |existing|
    ensures rs[i] == existing[i]
    ensures IsFirst(existing, parentID, ResourceKey(rs[i]), i) <==> IsFirst(rs, parentID, ResourceKey(rs[i]), i)
  {
    assert forall j :: 0 <= j <= i ==> existing[j] == rs[j];
  }

  lemma ReferencedSurvives(
    rs: seq<Resource>, existing: seq<Resource>, known: map<ChildKey, string>, parentID: string,
    minSequence: int, retain: nat, seen: set<ChildKey>, removed: set<string>, key: ChildKey)
    requires Extends(rs, existing) && KnownMatches(known, rs, parentID)
    requires Noted(rs, |existing|, known, parentID, minSequence, seen)
    requires RemovesExactly(rs, existing, parentID, minSequence, retain, removed) && key in seen
    ensures FirstIs(Surviving(rs, removed), parentID, key, known[key])
  {
    var i :| IsFirst(rs, parentID, key, i) && rs[i].id == known[key];
    if i < |existing| {
      assert forall j :: 0 <= j <= i ==> existing[j] == rs[j];
      assert IsFirst(existing, parentID, key, i);
      assert rs[i].reference.at == key.at;
    }
    FirstSurvives(rs, removed, parentID, key, i);
  }

  /** No survivor is stale, whether it was listed before or registered by this rewrite. */
  lemma SurvivorsAreFresh(
    rs: seq<Resource>, existing: seq<Resource>, parentID: string, minSequence: int, retain: nat,
      removed: set<string>, r: Resource)
    requires Extends(rs, existing) && minSequence >= 0
    requires forall i :: |existing| <= i < |rs| ==> New(rs, i, parentID, minSequence)
    requires RemovesExactly(rs, existing, parentID, minSequence, retain, removed)
    requires r in rs && r.id !in removed
    ensures !Stale(r, parentID, minSequence, retain)
  {
    var i :| 0 <= i < |rs| && rs[i] == r;
    if i >= |existing| {
      assert New(rs, i, parentID, minSequence);
    }
  }

  /** Of the children that share a key, only the first survives. */
  lemma SurvivorIsFirst(
    rs: seq<Resource>, existing: seq<Resource>, parentID: string, minSequence: int, retain: nat,
      removed: set<string>, i: int)
    requires Extends(rs, existing)
    requires forall i :: |existing| <= i < |rs| ==> New(rs, i, parentID, minSequence)
    requires RemovesExactly(rs, existing, parentID, minSequence, retain, removed)
    requires 0 <= i < |rs| && IsChild(rs[i], parentID) && rs[i].id !in removed
    ensures IsFirst(rs, parentID, ResourceKey(rs[i]), i)
  {
    if i < |existing| {
      assert forall j :: 0 <= j <= i ==> existing[j] == rs[j];
      assert !IsDuplicate(existing, parentID, i);
    } else {
      assert New(rs, i, parentID, minSequence);
    }
  }

  lemma SurvivorsAreUnique(
    rs: seq<Resource>, existing: seq<Resource>, parentID: string, minSequence: int, retain: nat,
      removed: set<string>, a: Resource, b: Resource)
    requires Extends(rs, existing)
    requires forall i :: |existing| <= i < |rs| ==> New(rs, i, parentID, minSequence)
    requires RemovesExactly(rs, existing, parentID, minSequence, retain, removed)
    requires a in rs && b in rs && a.id !in removed && b.id !in removed
    requires SameChild(a, b, parentID)
    ensures a == b
  {
    var i :| 0 <= i < |rs| && rs[i] == a;
    var j :| 0 <= j < |rs| && rs[j] == b;
    SurvivorIsFirst(rs, existing, parentID, minSequence, retain, removed, i);
    SurvivorIsFirst(rs, existing, parentID, minSequence, retain, removed, j);
    assert HasKey(rs[i], parentID, ResourceKey(b)) && HasKey(rs[j], parentID, ResourceKey(a));
  }

  /** What the cleanup leaves of a session's resources. */
  lemma CleanupIsSafe(
    rs: seq<Resource>, existing: seq<Resource>, known: map<ChildKey, string>, parentID: string,
    minSequence: int, retain: nat, seen: set<ChildKey>, removed: set<string>)
    requires Extends(rs, existing) && KnownMatches(known, rs, parentID) && minSequence >= 0
    requires Stored(rs) && Noted(rs, |existing|, known, parentID, minSequence, seen)
    requires RemovesExactly(rs, existing, parentID, minSequence, retain, removed)
    ensures var left := Surviving(rs, removed);
            && (forall r :: r in left ==> !Stale(r, parentID, minSequence, retain))
            && Clean(left, parentID, minSequence - retain)
            && (forall a, b :: a in left && b in left && SameChild(a, b, parentID) ==> a == b)
            && (forall key :: key in seen ==> FirstIs(left, parentID, key, known[key]))
            && (forall r :: r in rs && !IsChild(r, parentID) ==> r in left)
  {
    var left := Surviving(rs, removed);
    SurvivingIs(rs, removed);
    forall r | r in left
      ensures !Stale(r, parentID, minSequence, retain)
    {
      SurvivorsAreFresh(rs, existing, parentID, minSequence, retain, removed, r);
    }
    forall a, b | a in left && b in left && SameChild(a, b, parentID)
      ensures a == b
    {
      SurvivorsAreUnique(rs, existing, parentID, minSequence, retain, removed, a, b);
    }
    forall key | key in seen
      ensures FirstIs(left, parentID, key, known[key])
    {
      ReferencedSurvives(rs, existing, known, parentID, minSequence, retain, seen, removed, key);
    }
    forall r | r in rs && !IsChild(r, parentID)
      ensures r in left
    {
      var i :| 0 <= i < |rs| && rs[i] == r;
      assert i < |existing| ==> existing[i] == r;
    }
  }

  lemma KnownIsStored(known: map<ChildKey, string>, rs: seq<Resource>, parentID: string, key: ChildKey)
    requires Stored(rs) && KnownMatches(known, rs, parentID) && key in known
    ensures key.at.hasMediaSequence ==> key.at.mediaSequence >= 0
  {
    var i :| IsFirst(rs, parentID, key, i) && rs[i].id == known[key];
  }

  // ---------------------------------------------------------------- whole rewrites

  /** An identifier for each registration that might happen; all different, and new to the session. */
  ghost predicate DrawsFresh(draw: nat -> Option<string>, rs: seq<Resource>, from: nat) {
    && (forall k: nat :: k >= from && draw(k).Some? ==> Unused(rs, draw(k).value))
    && (forall k: nat, m: nat :: k < m && draw(k).Some? && draw(m).Some? ==> draw(k).value != draw(m).value)
  }

  function EntryKey(entries: seq<Entry>, i: nat): ChildKey
    requires i < |entries|
  {
    KeyOf(entries[i].kind, i, entries[i].at)
  }

  /** Every entry has a child, and its path is the first such child's. */
  ghost predicate Settled(rs: seq<Resource>, parent: Resource, entries: seq<Entry>, paths: seq<string>) {
    && |paths| == |entries|
    && forall i: nat :: i < |entries| ==> EntrySettled(rs, parent, entries, i, paths[i])
  }

  ghost predicate EntrySettled(rs: seq<Resource>, parent: Resource, entries: seq<Entry>, i: nat, path: string)
    requires i < |entries|
  {
    exists id :: FirstIs(rs, parent.id, EntryKey(entries, i), id) &&
      path == ResourcePath(id, entries[i].kind, parent.kind)
  }

  lemma SettledIsKnown(
      known: map<ChildKey, string>, rs: seq<Resource>, parent: Resource, entries: seq<Entry>, i: nat,
      path: string)
    requires KnownMatches(known, rs, parent.id) && i < |entries| && EntrySettled(rs, parent, entries, i, path)
    ensures EntryKey(entries, i) in known
    ensures path == ResourcePath(known[EntryKey(entries, i)], entries[i].kind, parent.kind)
  {
    var key := EntryKey(entries, i);
    var id :| FirstIs(rs, parent.id, key, id) && path == ResourcePath(id, entries[i].kind, parent.kind);
    var a :| IsFirst(rs, parent.id, key, a) && rs[a].id == id;
    var b :| IsFirst(rs, parent.id, key, b) && rs[b].id == known[key];
    assert a == b;
  }

  /** The least media sequence the playlist mentions, or -1. */
  function LeastSequence(entries: seq<Entry>): int {
    if entries == [] then -1
    else SequenceAfter(LeastSequence(entries[..|entries| - 1]), entries[|entries| - 1])
  }

  /** The media sequences of the playlist's segments. */
  function LiveSegments(entries: seq<Entry>): set<int> {
    if entries == [] then {}
    else LiveAfter(LiveSegments(entries[..|entries| - 1]), entries[|entries| - 1])
  }

  predicate Mentions(e: Entry, sequence: int) {
    e.at.hasMediaSequence && e.at.mediaSequence == sequence
  }

  /** The number noted is the least media sequence the playlist mentions, or -1 when there is none. */
  lemma {:induction false} LeastSequenceIsLeast(entries: seq<Entry>)
    requires forall e :: e in entries && e.at.hasMediaSequence ==> e.at.mediaSequence >= 0
    ensures var least := LeastSequence(entries);
            if least < 0 then least == -1 && forall e :: e in entries ==> !e.at.hasMediaSequence
            else exists e :: e in entries && Mentions(e, least)
    ensures forall e, n :: e in entries && Mentions(e, n) ==> 0 <= LeastSequence(entries) <= n
  {
    if entries != [] {
      var prefix, last := entries[..|entries| - 1], entries[|entries| - 1];
      assert entries == prefix + [last];
      LeastSequenceIsLeast(prefix);
      var least := LeastSequence(entries);
      if LeastSequence(prefix) == least && least >= 0 {
        var e :| e in prefix && Mentions(e, least);
        assert e in entries;
      } else if least >= 0 {
        assert last in entries && Mentions(last, least);
      }
    }
  }

  /** The live sequences noted are those of the playlist's segments. */
  lemma {:induction false} LiveSegmentsAreTheSegments(entries: seq<Entry>, n: int)
    ensures n in LiveSegments(entries) <==> exists e :: e in entries && e.kind.Segment? && Mentions(e, n)
  {
    if entries != [] {
      var prefix, last := entries[..|entries| - 1], entries[|entries| - 1];
      assert entries == prefix + [last];
      LiveSegmentsAreTheSegments(prefix, n);
      assert last in entries;
      if n in LiveSegments(prefix) {
        var e :| e in prefix && e.kind.Segment? && Mentions(e, n);
        assert e in entries;
      }
    }
  }

  ghost predicate AllKnown(known: map<ChildKey, string>, entries: seq<Entry>) {
    forall k: nat :: k < |entries| ==> EntryKey(entries, k) in known
  }

  /** The path of an entry whose key is known. */
  ghost predicate HasPath(known: map<ChildKey, string>, parent: Resource, entries: seq<Entry>, k: nat, path: string)
    requires k < |entries|
  {
    && EntryKey(entries, k) in known
    && path == ResourcePath(known[EntryKey(entries, k)], entries[k].kind, parent.kind)
  }

  /** The resource is the child of one of the first `n` entries. */
  ghost predicate StandsForSome(r: Resource, parent: Resource, entries: seq<Entry>, n: nat)
    requires n <= |entries|
  {
    exists k: nat :: k < n && StandsFor(r, parent, k, entries[k])
  }

  /** Every resource past the first `listed` was registered for one of the first `n` entries. */
  ghost predicate RegisteredFor(rs: seq<Resource>, listed: nat, parent: Resource, entries: seq<Entry>, n: nat)
    requires listed <= |rs| && n <= |entries|
  {
    forall j :: listed <= j < |rs| ==> StandsForSome(rs[j], parent, entries, n)
  }

  /** What a walk has added so far. */
  ghost predicate Grown(rs: seq<Resource>, existing: seq<Resource>, parent: Resource, entries: seq<Entry>, n: nat)
    requires n <= |entries|
  {
    Extends(rs, existing) && RegisteredFor(rs, |existing|, parent, entries, n)
  }

  lemma OneMoreGrown(
      before: seq<Resource>, after: seq<Resource>, existing: seq<Resource>, parent: Resource, entries: seq<Entry>,
      n: nat, m: nat)
    requires n <= m <= |entries| && Grown(before, existing, parent, entries, n)
    requires after == before ||
             (n < m && |after| == |before| + 1 && after[..|before|] == before &&
              StandsFor(after[|before|], parent, n, entries[n]))
    ensures Grown(after, existing, parent, entries, m)
  {
    assert after[..|before|] == before;
    assert after[..|existing|] == before[..|existing|];
    forall j | |existing| <= j < |after|
      ensures StandsForSome(after[j], parent, entries, m)
    {
      if j < |before| {
        assert after[j] == after[..|before|][j] == before[j];
        assert StandsForSome(before[j], parent, entries, n);
      } else {
        assert StandsFor(after[j], parent, n, entries[n]);
      }
    }
  }

  /** The walk over the playlist: mint is called once for each entry, in order. */
  method MintAll(
      minter: Minter, entries: seq<Entry>, draw: nat -> Option<string>, from: nat)
    returns (paths: Option<seq<string>>)
    requires minter.Valid() && DrawsFresh(draw, minter.graph.resources, from)
    requires minter.existing == minter.graph.resources
    requires minter.minSequence == -1 && minter.liveSequences == {}
    modifies minter, minter.graph
    ensures Stored(minter.graph.resources)
    ensures Grown(minter.graph.resources, minter.existing, minter.parent, entries, |entries|)
    ensures paths.Some? ==>
              && minter.Valid() && |paths.value| == |entries|
              && (forall k: nat :: k < |entries| ==>
                    EntryKey(entries, k) in minter.seen &&
                      HasPath(minter.known, minter.parent, entries, k, paths.value[k]))
              && minter.minSequence == LeastSequence(entries) && minter.liveSequences == LiveSegments(entries)
              && DrawsFresh(draw, minter.graph.resources, from + |entries|)
    ensures AllKnown(old(minter.known), entries) ==>
              paths.Some? && minter.graph.resources == old(minter.graph.resources) && minter.known == old(minter.known)
  {
    var out := [];
    for i := 0 to |entries|
      invariant Underway(minter, entries, draw, from, i, out)
      invariant AllKnown(old(minter.known), entries) ==>
                  minter.graph.resources == old(minter.graph.resources) && minter.known == old(minter.known)
    {
      assert AllKnown(old(minter.known), entries) ==> EntryKey(entries, i) in old(minter.known);
      ghost var before := minter.graph.resources;
      var path := MintNext(minter, entries, draw, from, i, out);
      if path.None? {
        OneMoreGrown(before, minter.graph.resources, minter.existing, minter.parent, entries, i, |entries|);
        return None;
      }
      out := out + [path.value];
    }
    assert entries[..|entries|] == entries;
    paths := Some(out);
  }

  /** The walk has come to entry `i`. */
  ghost predicate Underway(
      minter: Minter, entries: seq<Entry>, draw: nat -> Option<string>, from: nat, i: nat, out: seq<string>)
    requires i <= |entries|
    reads minter, minter.graph
  {
    && minter.Valid() && Minted(minter.known, minter.seen, minter.parent, entries, i, out)
    && minter.minSequence == LeastSequence(entries[..i]) && minter.liveSequences == LiveSegments(entries[..i])
    && Grown(minter.graph.resources, minter.existing, minter.parent, entries, i)
    && DrawsFresh(draw, minter.graph.resources, from + i)
  }

  method MintNext(
      minter: Minter, entries: seq<Entry>, draw: nat -> Option<string>, from: nat, i: nat, ghost out: seq<string>)
    returns (path: Option<string>)
    requires i < |entries| && Underway(minter, entries, draw, from, i, out)
    modifies minter, minter.graph
    ensures Stored(minter.graph.resources)
    ensures path.None? ==> minter.graph.resources == old(minter.graph.resources)
    ensures path.Some? ==> Underway(minter, entries, draw, from, i + 1, out + [path.value])
    ensures EntryKey(entries, i) in old(minter.known) ==>
              path.Some? && minter.graph.resources == old(minter.graph.resources) && minter.known == old(minter.known)
  {
    ghost var before, known, seen := minter.graph.resources, minter.known, minter.seen;
    path := minter.Mint(i, entries[i], draw(from + i));
    if path.Some? {
      assert entries[..i + 1][..i] == entries[..i];
      OneMoreDrawn(draw, before, minter.graph.resources, from + i);
      OneMoreGrown(before, minter.graph.resources, minter.existing, minter.parent, entries, i, i + 1);
      OneMoreMinted(known, minter.known, seen, minter.parent, entries, i, out, path.value);
    }
  }

  /** The first `n` entries have been minted. */
  ghost predicate Minted(
      known: map<ChildKey, string>, seen: set<ChildKey>, parent: Resource, entries: seq<Entry>, n: nat,
      out: seq<string>)
    requires n <= |entries|
  {
    && |out| == n
    && forall k: nat :: k < n ==> EntryKey(entries, k) in seen && HasPath(known, parent, entries, k, out[k])
  }

  lemma OneMoreMinted(
      before: map<ChildKey, string>, known: map<ChildKey, string>, seen: set<ChildKey>, parent: Resource,
      entries: seq<Entry>, n: nat, out: seq<string>, path: string)
    requires n < |entries| && Minted(before, seen, parent, entries, n, out) && HasPath(known, parent, entries, n, path)
    requires forall key :: key in before ==> key in known && known[key] == before[key]
    ensures Minted(known, seen + {EntryKey(entries, n)}, parent, entries, n + 1, out + [path])
  {
    forall k: nat | k < n + 1
      ensures HasPath(known, parent, entries, k, (out + [path])[k])
    {
      if k < n {
        assert HasPath(before, parent, entries, k, out[k]);
      }
    }
  }

  lemma OneMoreDrawn(draw: nat -> Option<string>, before: seq<Resource>, after: seq<Resource>, k: nat)
    requires DrawsFresh(draw, before, k)
    requires after == before || (draw(k).Some? && |after| == |before| + 1 && after[..|before|] == before &&
             after[|before|].id == draw(k).value)
    ensures DrawsFresh(draw, after, k + 1)
  {
    forall m: nat | m >= k + 1 && draw(m).Some?
      ensures Unused(after, draw(m).value)
    {
      forall i | 0 <= i < |after|
        ensures after[i].id != draw(m).value
      {
        assert i < |before| ==> after[i] == before[i];
      }
    }
  }

  lemma FewerResourcesStayFresh(draw: nat -> Option<string>, before: seq<Resource>, after: seq<Resource>, from: nat)
    requires DrawsFresh(draw, before, from) && forall r :: r in after ==> r in before
    ensures DrawsFresh(draw, after, from)
  {
    forall m: nat | m >= from && draw(m).Some?
      ensures Unused(after, draw(m).value)
    {
      forall i | 0 <= i < |after|
        ensures after[i].id != draw(m).value
      {
        assert after[i] in before;
      }
    }
  }

  lemma PathsAreDetermined(
      known: map<ChildKey, string>, parent: Resource, entries: seq<Entry>, p: seq<string>, q: seq<string>)
    requires |p| == |q| == |entries|
    requires forall k: nat :: k < |entries| ==> HasPath(known, parent, entries, k, p[k])
    requires forall k: nat :: k < |entries| ==> HasPath(known, parent, entries, k, q[k])
    ensures p == q
  {
    forall k: nat | k < |entries|
      ensures p[k] == q[k]
    {
      assert HasPath(known, parent, entries, k, p[k]) && HasPath(known, parent, entries, k, q[k]);
    }
  }

  /** What minting yields where every entry had a child already. */
  lemma SettledPathsComeBack(
      known: map<ChildKey, string>, rs: seq<Resource>, parent: Resource, entries: seq<Entry>, p: seq<string>,
      q: seq<string>)
    requires KnownMatches(known, rs, parent.id) && Settled(rs, parent, entries, p) && |q| == |entries|
    requires forall k: nat :: k < |entries| ==> HasPath(known, parent, entries, k, q[k])
    ensures p == q
  {
    SettledPathsAreMinted(known, rs, parent, entries, p);
    PathsAreDetermined(known, parent, entries, p, q);
  }

  /**
   rewriteHLSPlaylist's use of the closures: mint for each entry in order, then clean up. The paths
   it returns all resolve afterwards; where every entry already had a child it returns the same paths
   again and registers nothing. Of the resources stored before, it deletes the parent's second children
   of a key and those before the least sequence less the number of live segments, and no others; what it
   adds stands for an entry.
   */
  method Rewrite(graph: Graph, parent: Resource, entries: seq<Entry>, draw: nat -> Option<string>, from: nat)
    returns (paths: Option<seq<string>>, registered: int)
    requires Stored(graph.resources) && DrawsFresh(draw, graph.resources, from)
    modifies graph
    ensures Stored(graph.resources)
    ensures paths.Some? ==> Settled(graph.resources, parent, entries, paths.value)
    ensures paths.Some? ==> DrawsFresh(draw, graph.resources, from + |entries|)
    ensures paths.Some? ==> Tidied(old(graph.resources), graph.resources, parent, entries)
    ensures paths.None? ==> Added(old(graph.resources), graph.resources, parent, entries)
    ensures forall p :: Settled(old(graph.resources), parent, entries, p) ==> paths == Some(p) && registered == 0
  {
    var minter := new Minter(graph, parent);
    ghost var known0 := minter.known;
    paths := MintAll(minter, entries, draw, from);
    registered := |graph.resources| - |minter.existing|;
    SettledMeansSame(known0, old(graph.resources), parent, entries, paths);
    if paths.Some? {
      FinishRewrite(minter, entries, draw, from + |entries|, paths.value);
    } else {
      AddedStandFor(graph.resources, graph.resources, old(graph.resources), parent, entries);
    }
  }

  /** Whatever was not stored before stands for an entry. */
  ghost predicate OnlyAdds(before: seq<Resource>, after: seq<Resource>, parent: Resource, entries: seq<Entry>) {
    forall r :: r in after ==> r in before || StandsForSome(r, parent, entries, |entries|)
  }

  lemma AddedStandFor(
      rs: seq<Resource>, after: seq<Resource>, existing: seq<Resource>, parent: Resource, entries: seq<Entry>)
    requires Grown(rs, existing, parent, entries, |entries|) && forall r :: r in after ==> r in rs
    ensures OnlyAdds(existing, after, parent, entries)
  {
    forall r | r in after
      ensures r in existing || StandsForSome(r, parent, entries, |entries|)
    {
      var j :| 0 <= j < |rs| && rs[j] == r;
      assert j < |existing| ==> rs[..|existing|][j] == r;
    }
  }

  /** What is kept of a longer listing is kept of the listing it began with. */
  lemma KeptOfPrefix(rs: seq<Resource>, existing: seq<Resource>, after: seq<Resource>, parentID: string, first: int)
    requires Extends(rs, existing) && KeepsExactly(rs, after, parentID, first)
    ensures KeepsExactly(existing, after, parentID, first)
  {
    forall i | 0 <= i < |existing|
      ensures existing[i] in after <==> ToKeep(existing, parentID, first, i)
    {
      FirstInPrefix(rs, existing, parentID, i);
      assert rs[i] in after <==> ToKeep(rs, parentID, first, i);
    }
  }

  /** The resources stored before are all still there, and whatever is new stands for an entry. */
  ghost predicate Added(before: seq<Resource>, after: seq<Resource>, parent: Resource, entries: seq<Entry>) {
    Extends(after, before) && OnlyAdds(before, after, parent, entries)
  }

  /**
   What a rewrite does to the stored resources. The retained window begins at the least sequence of the
   playlist less the number of its live segments; a playlist without sequences deletes nothing.
   */
  ghost predicate Tidied(before: seq<Resource>, after: seq<Resource>, parent: Resource, entries: seq<Entry>) {
    if LeastSequence(entries) < 0 then Added(before, after, parent, entries)
    else
      var first := LeastSequence(entries) - |LiveSegments(entries)|;
      && KeepsExactly(before, after, parent.id, first) && Clean(after, parent.id, first)
      && OnlyAdds(before, after, parent, entries)
  }

  /** The end of a rewrite, once every entry has its path. */
  method FinishRewrite(
      minter: Minter, entries: seq<Entry>, ghost draw: nat -> Option<string>, ghost next: nat,
      ghost paths: seq<string>)
    requires minter.Valid() && DrawsFresh(draw, minter.graph.resources, next)
    requires Minted(minter.known, minter.seen, minter.parent, entries, |entries|, paths)
    requires Grown(minter.graph.resources, minter.existing, minter.parent, entries, |entries|)
    requires minter.minSequence == LeastSequence(entries) && minter.liveSequences == LiveSegments(entries)
    modifies minter.graph
    ensures Stored(minter.graph.resources) && DrawsFresh(draw, minter.graph.resources, next)
    ensures Settled(minter.graph.resources, minter.parent, entries, paths)
    ensures Tidied(minter.existing, minter.graph.resources, minter.parent, entries)
  {
    ghost var minted := minter.graph.resources;
    minter.Cleanup();
    if minter.minSequence >= 0 {
      KeptOfPrefix(minted, minter.existing, minter.graph.resources, minter.parent.id,
                   minter.minSequence - |minter.liveSequences|);
    }
    AddedStandFor(minted, minter.graph.resources, minter.existing, minter.parent, entries);
    FewerResourcesStayFresh(draw, minted, minter.graph.resources, next);
    MintedPathsSettle(minter.graph.resources, minter.known, minter.parent, entries, paths);
  }

  /** Where every entry has a child, only one list of paths fits, and minting yields it. */
  lemma SettledMeansSame(
      known: map<ChildKey, string>, rs: seq<Resource>, parent: Resource, entries: seq<Entry>,
      paths: Option<seq<string>>)
    requires KnownMatches(known, rs, parent.id)
    requires AllKnown(known, entries) ==>
               paths.Some? && |paths.value| == |entries| &&
               forall k: nat :: k < |entries| ==> HasPath(known, parent, entries, k, paths.value[k])
    ensures forall p :: Settled(rs, parent, entries, p) ==> AllKnown(known, entries) && paths == Some(p)
  {
    forall p | Settled(rs, parent, entries, p)
      ensures AllKnown(known, entries) && paths == Some(p)
    {
      SettledPathsAreMinted(known, rs, parent, entries, p);
      SettledPathsComeBack(known, rs, parent, entries, p, paths.value);
    }
  }

  lemma MintedPathsSettle(
      rs: seq<Resource>, known: map<ChildKey, string>, parent: Resource, entries: seq<Entry>,
      paths: seq<string>)
    requires |paths| == |entries|
    requires forall k: nat :: k < |entries| ==> HasPath(known, parent, entries, k, paths[k])
    requires forall k: nat :: k < |entries| ==>
      EntryKey(entries, k) in known && FirstIs(rs, parent.id, EntryKey(entries, k), known[EntryKey(entries, k)])
    ensures Settled(rs, parent, entries, paths)
  {
    forall k: nat | k < |entries|
      ensures EntrySettled(rs, parent, entries, k, paths[k])
    {
      assert HasPath(known, parent, entries, k, paths[k]);
    }
  }

  lemma SettledPathsAreMinted(
      known: map<ChildKey, string>, rs: seq<Resource>, parent: Resource, entries: seq<Entry>, p: seq<string>)
    requires KnownMatches(known, rs, parent.id) && Settled(rs, parent, entries, p)
    ensures AllKnown(known, entries)
    ensures forall k: nat :: k < |entries| ==> HasPath(known, parent, entries, k, p[k])
  {
    forall k: nat | k < |entries|
      ensures HasPath(known, parent, entries, k, p[k])
    {
      SettledIsKnown(known, rs, parent, entries, k, p[k]);
    }
    forall k: nat | k < |entries|
      ensures EntryKey(entries, k) in known
    {
      assert HasPath(known, parent, entries, k, p[k]);
    }
  }

  /** Rewriting an unchanged playlist again yields identical paths and registers nothing. */
  method RewriteAgain(graph: Graph, parent: Resource, entries: seq<Entry>, draw: nat -> Option<string>)
    returns (first: Option<seq<string>>, second: Option<seq<string>>, registered: int)
    requires Stored(graph.resources) && DrawsFresh(draw, graph.resources, 0)
    modifies graph
    ensures first.Some? ==> second == first && registered == 0
  {
    registered := 0;
    first, registered := Rewrite(graph, parent, entries, draw, 0);
    second := None;
    if first.Some? {
      second, registered := Rewrite(graph, parent, entries, draw, |entries|);
    }
  }
}
