/** What a snapshot and an index must be like to be accepted, and which walks can be stored. */
module Validation {
  import opened ByteStrings
  import opened Codec
  import opened Links
  import opened Packs
  import opened Paths
  import opened Store
  import opened Restore
  import Chunker

  // ------------------------------------------------------------ names and link targets

  /** A relative slash-separated name without empty or dot elements. */
  predicate Plainly(path: string) {
    '\\' !in path && forall i :: 0 <= i < |Split(path)| ==> Split(path)[i] !in ["", ".", ".."]
  }

  /** A relative target that, followed element by element, never steps above the root. */
  ghost predicate Inside(path: string, target: string) {
    && target != "" && target[0] !in ['/', '\\'] && '\0' !in target
    && var steps := Split(path)[..|Split(path)| - 1] + Split(Slashed(target));
    forall n :: 0 <= n <= |steps| ==> Depth(steps[..n]) >= 0
  }

  lemma InsideIff(path: string, target: string)
    ensures SafeLink(path, target) <==> Inside(path, target)
  {
    hide Split, Clean, Depth;
    var steps := Directories(path) + Split(Slashed(target));
    EscapesIffSurfaces(steps);
    if target != "" {
      assert Slashed(target)[0] == '/' <==> target[0] in ['/', '\\'];
    }
  }

  // ------------------------------------------------------------ snapshots

  ghost predicate AcceptableEntry(e: Entry, encrypted: bool) {
    && Plainly(e.path) && 0 <= e.size
    && (e.kind == Directory ==> e.chunks == [] && e.linkTarget == "")
    && (e.kind == Symlink ==> e.chunks == [] && Inside(e.path, e.linkTarget))
    && (e.kind == File ==> e.linkTarget == "" && (e.chunks == [] <==> e.size == 0)
                           && forall id :: id in e.chunks ==> id.encrypted == encrypted)
    && e.kind != Unsupported
  }

  /** No name twice, and none below that of a link. */
  ghost predicate AcceptableNames(entries: seq<Entry>) {
    && (forall i, j :: 0 <= i < |entries| && 0 <= j < |entries| && entries[i].path == entries[j].path ==> i == j)
    && (forall l, e :: l in entries && e in entries && l.kind == Symlink ==> !(Split(l.path) < Split(e.path)))
  }

  lemma EntryAcceptedIff(e: Entry, encrypted: bool)
    ensures ValidEntry(e, encrypted) <==> AcceptableEntry(e, encrypted)
  {
    hide Split, SafeLink, Inside;
    InsideIff(e.path, e.linkTarget);
  }

  lemma NotBelowIff(path: string, name: string)
    ensures Below(name, path) <==> Split(path) < Split(name)
  {
    hide Split, Joined;
    JoinedSplit(path);
    BelowByElements(name, Split(path));
  }

  /** The reader accepts exactly the snapshots of version 1 whose entries and names are acceptable. */
  lemma SnapshotAcceptedIff(s: Snapshot)
    ensures ValidSnapshot(s) <==>
      && s.version == 1 && AcceptableNames(s.entries)
      && forall e :: e in s.entries ==> AcceptableEntry(e, s.encrypted)
  {
    hide ValidEntry, AcceptableEntry, Below, Split;
    forall e | e in s.entries ensures ValidEntry(e, s.encrypted) <==> AcceptableEntry(e, s.encrypted) {
      EntryAcceptedIff(e, s.encrypted);
    }
    forall l, e | l in s.entries && e in s.entries ensures Below(e.path, l.path) <==> Split(l.path) < Split(e.path) {
      NotBelowIff(l.path, e.path);
    }
    if ValidSnapshot(s) {
      forall l, e | l in s.entries && e in s.entries && l.kind == Symlink ensures !Below(e.path, l.path) {
        var i, j :| 0 <= i < |s.entries| && 0 <= j < |s.entries| && s.entries[i] == l && s.entries[j] == e;
      }
    }
  }

  // ------------------------------------------------------------ index objects

  /**
   An index object is used only if it is of version 1, about its own pack and not empty, and
   every location is of a chunk of 1 to 4194304 bytes stored in 1 to 4456448 bytes that end
   within the largest pack there may be.
   */
  ghost predicate AcceptableSegment(seg: Segment, digest: nat, packSize: int) {
    && seg.version == 1 && seg.pack == digest && seg.chunks != map[]
    && forall id :: id in seg.chunks ==>
      var l := seg.chunks[id];
      var largest := if packSize > 4456448 then packSize else if packSize > 0 then 4456448 else 33554432;
      && l.pack == digest && l.encrypted == id.encrypted
      && 1 <= l.plainSize <= 4194304 && 1 <= l.length <= 4456448
      && 0 <= l.offset && l.offset + l.length <= largest
  }

  lemma SegmentAcceptedIff(objects: Objects, digest: nat, packSize: int)
    ensures ReadSegment(objects, digest, packSize).Ok? <==>
      && IndexKey(digest) in objects && objects[IndexKey(digest)].IndexObject?
      && AcceptableSegment(objects[IndexKey(digest)].segment, digest, packSize)
  {
  }

  // ------------------------------------------------------------ walks that can be stored

  ghost predicate StorableVisit(v: Visit) {
    Plainly(v.path) && (v.node.LinkNode? ==> Inside(v.path, v.node.target))
  }

  /** Sockets and devices apart, every name is plain and comes once, and links lead inside and have nothing below. */
  ghost predicate Storable(visits: seq<Visit>) {
    && (forall v :: v in visits && !v.node.SpecialNode? ==> StorableVisit(v))
    && (forall i, j :: 0 <= i < j < |visits| && !visits[i].node.SpecialNode? && !visits[j].node.SpecialNode? ==>
          visits[i].path != visits[j].path)
    && (forall l, v :: l in visits && v in visits && l.node.LinkNode? && !v.node.SpecialNode? ==>
          !(Split(l.path) < Split(v.path)))
  }

  lemma VisitStoredIff(c: Primitives, p: Chunker.Params, v: Visit, k: Compression, e: bool)
    requires Chunker.ValidParams(p) && !v.node.SpecialNode?
    ensures AcceptableEntry(EntryOf(c, p, v, k, e), e) <==> StorableVisit(v)
    ensures EntryOf(c, p, v, k, e).kind == Symlink <==> v.node.LinkNode?
  {
    hide Split, Inside, Chunker.Cut;
  }

  /** The entries of a walk are those of its visits. */
  lemma {:induction false} EntryHasVisit(c: Primitives, p: Chunker.Params, visits: seq<Visit>, k: Compression, e: bool,
                                         entry: Entry)
    requires Chunker.ValidParams(p)
    ensures entry in EntriesOf(c, p, visits, k, e) <==>
      exists v :: v in visits && !v.node.SpecialNode? && entry == EntryOf(c, p, v, k, e)
  {
    hide EntryOf, EntriesOf;
    if visits == [] {
      NoEntries(c, p, k, e);
    } else {
      var front, last := visits[..|visits| - 1], visits[|visits| - 1];
      EntriesSnoc(c, p, visits, k, e);
      EntryHasVisit(c, p, front, k, e, entry);
      assert forall v :: v in visits <==> v in front || v == last;
    }
  }

  lemma {:induction false} DistinctEntries(c: Primitives, p: Chunker.Params, visits: seq<Visit>, k: Compression,
                                           e: bool)
    requires Chunker.ValidParams(p) && DistinctNames(visits)
    ensures var entries := EntriesOf(c, p, visits, k, e);
      forall i, j :: 0 <= i < j < |entries| ==> entries[i].path != entries[j].path
  {
    hide EntryOf, EntriesOf;
    if visits == [] {
      NoEntries(c, p, k, e);
    } else {
      var front, last := visits[..|visits| - 1], visits[|visits| - 1];
      EntriesSnoc(c, p, visits, k, e);
      DistinctEntries(c, p, front, k, e);
      var before := EntriesOf(c, p, front, k, e);
      forall i | 0 <= i < |before| && !last.node.SpecialNode? ensures before[i].path != last.path {
        EntryHasVisit(c, p, front, k, e, before[i]);
        var v :| v in front && !v.node.SpecialNode? && before[i] == EntryOf(c, p, v, k, e);
        EntryFacts(c, p, v, k, e);
      }
      EntryFacts(c, p, last, k, e);
    }
  }

  /** A walk makes an acceptable snapshot exactly if it can be stored. */
  lemma WalkAcceptedIff(c: Primitives, p: Chunker.Params, visits: seq<Visit>, k: Compression, e: bool)
    requires Chunker.ValidParams(p)
    ensures ValidSnapshot(Snapshot(FORMAT_VERSION, k, e, EntriesOf(c, p, visits, k, e))) <==> Storable(visits)
  {
    hide EntryOf, EntriesOf, AcceptableEntry, StorableVisit, ValidSnapshot, Split;
    var entries := EntriesOf(c, p, visits, k, e);
    SnapshotAcceptedIff(Snapshot(FORMAT_VERSION, k, e, entries));
    forall entry { EntryHasVisit(c, p, visits, k, e, entry); }
    forall v | v in visits && !v.node.SpecialNode?
      ensures var entry := EntryOf(c, p, v, k, e);
        && entry in entries && entry.path == v.path && (entry.kind == Symlink <==> v.node.LinkNode?)
        && (AcceptableEntry(entry, e) <==> StorableVisit(v))
    {
      VisitStoredIff(c, p, v, k, e);
      EntryFacts(c, p, v, k, e);
    }
    if DistinctNames(visits) {
      DistinctEntries(c, p, visits, k, e);
    }
    if AcceptableNames(entries) {
      ValidWalkIsDistinct(c, p, visits, k, e);
    }
  }
}
