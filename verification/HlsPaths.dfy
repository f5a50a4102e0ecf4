/**
 What the paths of a rewritten playlist say: a request for one reaches the child it was minted for, and
 two entries share a path exactly when they are the same live or rendition entry.
 */
module HlsPaths {
  import opened HlsMint
  import opened Text

  /** The resource id in a request path, as the handler cuts it out: from after "/hls/" up to the first dot. */
  function RequestedID(path: string): string {
    if |path| < 5 then "" else path[5..][..Index(path[5..], '.')]
  }

  predicate Dotless(id: string) {
    forall i :: 0 <= i < |id| ==> id[i] != '.'
  }

  /** Identifiers are drawn without dots. */
  ghost predicate DotlessIDs(rs: seq<Resource>) {
    forall i :: 0 <= i < |rs| ==> Dotless(rs[i].id)
  }

  lemma PathNamesItsID(id: string, kind: Kind, parentKind: Kind)
    requires Dotless(id)
    ensures RequestedID(ResourcePath(id, kind, parentKind)) == id
  {
    var path := ResourcePath(id, kind, parentKind);
    var extension := path[5 + |id|..];
    assert path == "/hls/" + id + extension && extension[0] == '.';
    assert path[5..] == id + "." + extension[1..];
    IndexOfSeparator(id, '.', extension[1..]);
  }

  /** What the end of a path says about the child. */
  predicate EndsWith(path: string, end: string) {
    |end| <= |path| && path[|path| - |end|..] == end
  }

  lemma PathTellsTheKind(id: string, kind: Kind, parentKind: Kind)
    ensures var path := ResourcePath(id, kind, parentKind);
            && (EndsWith(path, ".m3u8") <==> kind.Master? || kind.Media? || kind.Subtitle?)
            && (EndsWith(path, ".mp4") <==> kind.Map?)
            && (EndsWith(path, ".key") <==> kind.Key?)
            && (EndsWith(path, ".vtt") <==> kind.Segment? && parentKind.Subtitle?)
            && (EndsWith(path, ".ts") <==> kind.Segment? && !parentKind.Subtitle?)
  {
    var path := ResourcePath(id, kind, parentKind);
    var n := |path|;
    assert path[n - 1] in {'8', '4', 'y', 't', 's'};
    assert forall end: string :: EndsWith(path, end) && end != "" ==> path[n - 1] == end[|end| - 1];
    assert path[5 + |id|..] in {".m3u8", ".mp4", ".key", ".vtt", ".ts"};
  }

  /** A request for an entry's path reaches the first child of the entry's key. */
  lemma RequestReachesTheChild(rs: seq<Resource>, parent: Resource, entries: seq<Entry>, paths: seq<string>, k: nat)
    requires Settled(rs, parent, entries, paths) && DotlessIDs(rs) && k < |entries|
    ensures FirstIs(rs, parent.id, EntryKey(entries, k), RequestedID(paths[k]))
  {
    assert EntrySettled(rs, parent, entries, k, paths[k]);
    var id :| FirstIs(rs, parent.id, EntryKey(entries, k), id) &&
      paths[k] == ResourcePath(id, entries[k].kind, parent.kind);
    PathNamesItsID(id, entries[k].kind, parent.kind);
  }

  lemma OneFirstChild(rs: seq<Resource>, parentID: string, a: ChildKey, b: ChildKey, id: string)
    requires Stored(rs) && FirstIs(rs, parentID, a, id) && FirstIs(rs, parentID, b, id)
    ensures a == b
  {
    var i :| IsFirst(rs, parentID, a, i) && rs[i].id == id;
    var j :| IsFirst(rs, parentID, b, j) && rs[j].id == id;
    assert i == j;
  }

  lemma OneID(rs: seq<Resource>, parentID: string, key: ChildKey, a: string, b: string)
    requires FirstIs(rs, parentID, key, a) && FirstIs(rs, parentID, key, b)
    ensures a == b
  {
    var i :| IsFirst(rs, parentID, key, i) && rs[i].id == a;
    var j :| IsFirst(rs, parentID, key, j) && rs[j].id == b;
    assert i == j;
  }

  /**
   Two entries of a playlist have one path if and only if they agree in kind and coordinates and these
   are those of a live segment or of a rendition; plain entries always have paths of their own.
   */
  lemma PathsNameTheEntries(
      rs: seq<Resource>, parent: Resource, entries: seq<Entry>, paths: seq<string>, k: nat, m: nat)
    requires Stored(rs) && DotlessIDs(rs) && Settled(rs, parent, entries, paths) && k < m < |entries|
    ensures paths[k] == paths[m] <==>
            && entries[k].kind == entries[m].kind && entries[k].at == entries[m].at
            && (entries[k].at.hasMediaSequence || entries[k].at.hasRenditionIndex)
  {
    RequestReachesTheChild(rs, parent, entries, paths, k);
    RequestReachesTheChild(rs, parent, entries, paths, m);
    var a, b := EntryKey(entries, k), EntryKey(entries, m);
    if paths[k] == paths[m] {
      OneFirstChild(rs, parent.id, a, b, RequestedID(paths[k]));
    } else if a == b {
      PathsAgree(rs, parent, entries, paths, k, m);
    }
  }

  lemma PathsAgree(rs: seq<Resource>, parent: Resource, entries: seq<Entry>, paths: seq<string>, k: nat, m: nat)
    requires Settled(rs, parent, entries, paths) && k < m < |entries|
    requires EntryKey(entries, k) == EntryKey(entries, m)
    ensures paths[k] == paths[m]
  {
    var key := EntryKey(entries, k);
    assert EntrySettled(rs, parent, entries, k, paths[k]) && EntrySettled(rs, parent, entries, m, paths[m]);
    var a :| FirstIs(rs, parent.id, key, a) && paths[k] == ResourcePath(a, entries[k].kind, parent.kind);
    var b :| FirstIs(rs, parent.id, key, b) && paths[m] == ResourcePath(b, entries[m].kind, parent.kind);
    OneID(rs, parent.id, key, a, b);
  }
}
