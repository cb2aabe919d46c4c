/**
 `findManifestsBelow` of cli/src/commands/deploy.ts lines 1221-1259: a bounded search for flui.yaml
 files, its results gathered in one list that every level of the recursion pushes to.

 The guard stops entering directories at ten results, but a directory already entered may still
 add its own manifest on the way out: twelve is the true bound.
 */
module ManifestScan {
  import opened Integers
  import opened Text

  datatype Entry =
    | File(name: string)
    | Dir(name: string, listing: Listing)
    | Other(name: string)

  /** What listing a directory gives: its entries, or a failure. */
  datatype Listing = Unreadable | Listed(entries: seq<Entry>)

  /** A path relative to the root, name by name. */
  type Path = seq<string>

  const MANIFEST := "flui.yaml"
  const SKIPPED := {"node_modules", ".git", "dist", "build", ".next", "out", "coverage", ".turbo", ".cache"}
  const MAX_DEPTH := 3
  const ENOUGH := 10

  predicate IsEnterable(e: Entry) {
    e.Dir? && !("." <= e.name) && e.name !in SKIPPED
  }

  predicate IsManifest(e: Entry) {
    e.File? && e.name == MANIFEST
  }

  // ---- what the search computes ----------------------------------------------------

  /** The list once directory `rel`, at some depth, has been searched. */
  function Scanned(listing: Listing, rel: Path, depth: nat, found: seq<Path>): seq<Path>
    decreases if depth > MAX_DEPTH then 0 else MAX_DEPTH + 1 - depth, 0, 1
  {
    if depth > MAX_DEPTH || |found| >= ENOUGH || listing.Unreadable? then found
    else ScannedEntries(listing.entries, rel, depth, found)
  }

  function ScannedEntries(entries: seq<Entry>, rel: Path, depth: nat, found: seq<Path>): seq<Path>
    requires depth <= MAX_DEPTH
    decreases MAX_DEPTH - depth, 1, |entries|
  {
    if entries == [] then found
    else ScannedEntries(entries[1..], rel, depth, ScannedEntry(entries[0], rel, depth, found))
  }

  function ScannedEntry(e: Entry, rel: Path, depth: nat, found: seq<Path>): seq<Path>
    requires depth <= MAX_DEPTH
    decreases MAX_DEPTH - depth, 1, 0
  {
    if IsManifest(e) && rel != [] then found + [rel + [e.name]]
    else if IsEnterable(e) then Scanned(e.listing, rel + [e.name], depth + 1, found)
    else found
  }

  /** The list that all levels of the recursion share. */
  class FoundList {
    var paths: seq<Path>

    constructor ()
      ensures paths == []
    {
      paths := [];
    }
  }

  method FindManifestsBelow(listing: Listing, rel: Path, depth: nat, found: FoundList)
    modifies found
    ensures found.paths == Scanned(listing, rel, depth, old(found.paths))
    decreases if depth > MAX_DEPTH then 0 else MAX_DEPTH + 1 - depth
  {
    if depth > MAX_DEPTH || |found.paths| >= ENOUGH {
      return;
    }
    if listing.Unreadable? {
      return;
    }
    var entries := listing.entries;
    assert entries[0..] == entries;
    for i := 0 to |entries|
      invariant ScannedEntries(entries, rel, depth, old(found.paths)) ==
                ScannedEntries(entries[i..], rel, depth, found.paths)
    {
      var entry := entries[i];
      assert entries[i..][0] == entry && entries[i..][1..] == entries[i + 1..];
      if IsManifest(entry) && rel != [] {
        found.paths := found.paths + [rel + [entry.name]];
      } else if IsEnterable(entry) {
        FindManifestsBelow(entry.listing, rel + [entry.name], depth + 1, found);
      }
    }
  }

  // ---- what is there to find -------------------------------------------------------

  /** Whether following `path` from this listing, through enterable directories, leads to a manifest. */
  ghost predicate Leads(listing: Listing, path: Path)
    decreases |path|
  {
    && listing.Listed? && path != []
    && exists e ::
         && e in listing.entries && e.name == path[0]
         && if |path| == 1 then IsManifest(e) else IsEnterable(e) && Leads(e.listing, path[1..])
  }

  /** A manifest one to three directories below the root, none of them skipped or hidden. */
  ghost predicate IsEligible(root: Listing, path: Path) {
    2 <= |path| <= MAX_DEPTH + 1 && Leads(root, path)
  }

  /** Names are unique within each directory. */
  ghost predicate NamesAreUnique(listing: Listing)
    decreases listing
  {
    listing.Listed? ==>
      && (forall j, k :: 0 <= j < k < |listing.entries| ==> listing.entries[j].name != listing.entries[k].name)
      && (forall e :: e in listing.entries && e.Dir? ==> NamesAreUnique(e.listing))
  }

  // ---- the search without its guard ------------------------------------------------

  /** The manifests below a directory at `rel`, in the order the search meets them. */
  function Unguarded(listing: Listing, rel: Path, depth: nat): seq<Path>
    decreases if depth > MAX_DEPTH then 0 else MAX_DEPTH + 1 - depth, 0, 1
  {
    if depth > MAX_DEPTH || listing.Unreadable? then [] else UnguardedEntries(listing.entries, rel, depth)
  }

  function UnguardedEntries(entries: seq<Entry>, rel: Path, depth: nat): seq<Path>
    requires depth <= MAX_DEPTH
    decreases MAX_DEPTH - depth, 1, |entries|
  {
    if entries == [] then [] else UnguardedEntry(entries[0], rel, depth) + UnguardedEntries(entries[1..], rel, depth)
  }

  function UnguardedEntry(e: Entry, rel: Path, depth: nat): seq<Path>
    requires depth <= MAX_DEPTH
    decreases MAX_DEPTH - depth, 1, 0
  {
    if IsManifest(e) && rel != [] then [rel + [e.name]]
    else if IsEnterable(e) then Unguarded(e.listing, rel + [e.name], depth + 1)
    else []
  }

  /** What a search of `listing` at `rel` may add. */
  ghost predicate MayAdd(listing: Listing, rel: Path, path: Path) {
    rel < path && Leads(listing, path[|rel|..]) && 2 <= |path| <= MAX_DEPTH + 1
  }

  /** What one entry of a directory at `rel` may add. */
  ghost predicate EntryMayAdd(e: Entry, rel: Path, path: Path) {
    || (IsManifest(e) && rel != [] && path == rel + [e.name])
    || (IsEnterable(e) && MayAdd(e.listing, rel + [e.name], path))
  }

  ghost predicate IsBelow(e: Entry, rel: Path, depth: nat, path: Path)
    requires depth <= MAX_DEPTH
  {
    path in UnguardedEntry(e, rel, depth)
  }

  lemma {:induction false} InEntries(entries: seq<Entry>, rel: Path, depth: nat, path: Path)
    requires depth <= MAX_DEPTH
    ensures path in UnguardedEntries(entries, rel, depth) <==>
            exists e :: e in entries && IsBelow(e, rel, depth, path)
  {
    if entries == [] {
    } else {
      var first, rest := entries[0], entries[1..];
      InEntries(rest, rel, depth, path);
      assert path in UnguardedEntries(entries, rel, depth) <==>
             IsBelow(first, rel, depth, path) || path in UnguardedEntries(rest, rel, depth);
      assert forall e :: e in entries <==> e == first || e in rest;
    }
  }

  /** The search without its guard finds just the manifests there are. */
  lemma {:induction false} UnguardedFinds(listing: Listing, rel: Path, depth: nat, path: Path)
    requires |rel| == depth
    ensures path in Unguarded(listing, rel, depth) <==> MayAdd(listing, rel, path)
    decreases if depth > MAX_DEPTH then 0 else MAX_DEPTH + 1 - depth
  {
    if depth > MAX_DEPTH || listing.Unreadable? {
    } else {
      InEntries(listing.entries, rel, depth, path);
      forall e | e in listing.entries
        ensures IsBelow(e, rel, depth, path) <==> EntryMayAdd(e, rel, path)
      {
        if IsEnterable(e) {
          UnguardedFinds(e.listing, rel + [e.name], depth + 1, path);
        }
      }
    }
  }

  /** At the root these are the eligible manifests. */
  lemma UnguardedFindsEligible(root: Listing, path: Path)
    ensures path in Unguarded(root, [], 0) <==> IsEligible(root, path)
  {
    UnguardedFinds(root, [], 0, path);
    assert path[0..] == path;
  }

  // ---- what the guard leaves out ---------------------------------------------------

  /** The guarded search adds only what the unguarded one would, and all of it while there is room. */
  ghost predicate AddsSome(found: seq<Path>, all: seq<Path>, result: seq<Path>) {
    && found <= result
    && (forall p :: p in result ==> p in found || p in all)
    && (|result| < ENOUGH ==> result == found + all)
  }

  lemma AddsInTurn(found: seq<Path>, some: seq<Path>, next: seq<Path>, more: seq<Path>, result: seq<Path>)
    requires AddsSome(found, some, next) && AddsSome(next, more, result)
    ensures AddsSome(found, some + more, result)
  {
  }

  lemma {:induction false} ScanAddsSome(listing: Listing, rel: Path, depth: nat, found: seq<Path>)
    ensures AddsSome(found, Unguarded(listing, rel, depth), Scanned(listing, rel, depth, found))
    decreases if depth > MAX_DEPTH then 0 else MAX_DEPTH + 1 - depth, 0, 1
  {
    if depth > MAX_DEPTH || |found| >= ENOUGH || listing.Unreadable? {
    } else {
      EntriesAddSome(listing.entries, rel, depth, found);
    }
  }

  lemma {:induction false} EntriesAddSome(entries: seq<Entry>, rel: Path, depth: nat, found: seq<Path>)
    requires depth <= MAX_DEPTH
    ensures AddsSome(found, UnguardedEntries(entries, rel, depth), ScannedEntries(entries, rel, depth, found))
    decreases MAX_DEPTH - depth, 1, |entries|
  {
    if entries == [] {
    } else {
      var e, rest := entries[0], entries[1..];
      var next := ScannedEntry(e, rel, depth, found);
      if IsEnterable(e) {
        ScanAddsSome(e.listing, rel + [e.name], depth + 1, found);
      }
      EntriesAddSome(rest, rel, depth, next);
      AddsInTurn(found, UnguardedEntry(e, rel, depth), next, UnguardedEntries(rest, rel, depth),
                 ScannedEntries(rest, rel, depth, next));
    }
  }

  /** Every result is an eligible manifest. */
  lemma ResultsAreEligible(root: Listing, path: Path)
    requires path in Scanned(root, [], 0, [])
    ensures IsEligible(root, path)
  {
    ScanAddsSome(root, [], 0, []);
    UnguardedFindsEligible(root, path);
  }

  /** A search that returns fewer than ten results has found every eligible manifest. */
  lemma FewerThanTenIsComplete(root: Listing, path: Path)
    requires |Scanned(root, [], 0, [])| < ENOUGH && IsEligible(root, path)
    ensures path in Scanned(root, [], 0, [])
  {
    ScanAddsSome(root, [], 0, []);
    UnguardedFindsEligible(root, path);
  }

  // ---- no more than twelve ---------------------------------------------------------

  ghost function OwnManifests(entries: seq<Entry>): nat {
    if entries == [] then 0 else (if IsManifest(entries[0]) then 1 else 0) + OwnManifests(entries[1..])
  }

  lemma {:induction false} AtMostOneOwnManifest(entries: seq<Entry>)
    requires forall j, k :: 0 <= j < k < |entries| ==> entries[j].name != entries[k].name
    ensures OwnManifests(entries) <= 1
    ensures (forall k :: 0 <= k < |entries| ==> entries[k].name != MANIFEST) ==> OwnManifests(entries) == 0
  {
    if entries == [] {
    } else {
      AtMostOneOwnManifest(entries[1..]);
    }
  }

  lemma {:induction false} ScanCount(listing: Listing, rel: Path, depth: nat, found: seq<Path>)
    requires |rel| == depth <= MAX_DEPTH + 1 && NamesAreUnique(listing)
    ensures |Scanned(listing, rel, depth, found)| <= Max(|found|, if depth == 0 then 12 else 13 - depth)
    decreases MAX_DEPTH + 1 - depth, 0, 1
  {
    if depth <= MAX_DEPTH && |found| < ENOUGH && listing.Listed? {
      AtMostOneOwnManifest(listing.entries);
      EntriesCount(listing.entries, rel, depth, found);
    } else {
    }
  }

  lemma {:induction false} EntriesCount(entries: seq<Entry>, rel: Path, depth: nat, found: seq<Path>)
    requires |rel| == depth <= MAX_DEPTH
    requires forall e :: e in entries && e.Dir? ==> NamesAreUnique(e.listing)
    ensures |ScannedEntries(entries, rel, depth, found)| <=
            Max(|found|, 12 - depth) + if depth == 0 then 0 else OwnManifests(entries)
    decreases MAX_DEPTH - depth, 1, |entries|
  {
    if entries == [] {
    } else {
      var e := entries[0];
      if IsEnterable(e) {
        ScanCount(e.listing, rel + [e.name], depth + 1, found);
      }
      EntriesCount(entries[1..], rel, depth, ScannedEntry(e, rel, depth, found));
    }
  }

  // ---- each of them once -----------------------------------------------------------

  ghost predicate Distinct(paths: seq<Path>) {
    forall j, k :: 0 <= j < k < |paths| ==> paths[j] != paths[k]
  }

  /** Paths that a search below `rel` cannot add again. */
  ghost predicate NoneBelow(found: seq<Path>, rel: Path) {
    forall p :: p in found ==> !(rel <= p)
  }

  lemma ChildIsBelow(rel: Path, name: string, p: Path)
    ensures rel + [name] <= p ==> rel <= p && p[|rel|] == name
  {
    if rel + [name] <= p {
      assert p[..|rel|] == (rel + [name])[..|rel|] == rel;
      assert p[|rel|] == (rel + [name])[|rel|];
    }
  }

  lemma BelowChild(found: seq<Path>, rel: Path, name: string)
    requires NoneBelow(found, rel)
    ensures NoneBelow(found, rel + [name])
  {
    forall p | p in found ensures !(rel + [name] <= p) {
      ChildIsBelow(rel, name, p);
    }
  }

  lemma {:induction false} ScanIsDistinct(listing: Listing, rel: Path, depth: nat, found: seq<Path>)
    requires |rel| == depth && NamesAreUnique(listing) && Distinct(found) && NoneBelow(found, rel)
    ensures var r := Scanned(listing, rel, depth, found);
            Distinct(r) && forall p :: p in r ==> p in found || rel <= p
    decreases if depth > MAX_DEPTH then 0 else MAX_DEPTH + 1 - depth, 0, 1
  {
    if depth <= MAX_DEPTH && |found| < ENOUGH && listing.Listed? {
      forall e | e in listing.entries ensures NoneBelow(found, rel + [e.name]) {
        BelowChild(found, rel, e.name);
      }
      EntriesAreDistinct(listing.entries, rel, depth, found);
    } else {
    }
  }

  lemma {:induction false} EntriesAreDistinct(entries: seq<Entry>, rel: Path, depth: nat, found: seq<Path>)
    requires |rel| == depth <= MAX_DEPTH && Distinct(found)
    requires forall j, k :: 0 <= j < k < |entries| ==> entries[j].name != entries[k].name
    requires forall e :: e in entries && e.Dir? ==> NamesAreUnique(e.listing)
    requires forall e :: e in entries ==> NoneBelow(found, rel + [e.name])
    ensures var r := ScannedEntries(entries, rel, depth, found);
            Distinct(r) && forall p :: p in r ==> p in found || rel <= p
    decreases MAX_DEPTH - depth, 1, |entries|
  {
    if entries == [] {
    } else {
      var e, rest := entries[0], entries[1..];
      var next := ScannedEntry(e, rel, depth, found);
      EntryIsDistinct(e, rel, depth, found);
      forall other | other in rest ensures NoneBelow(next, rel + [other.name]) {
        assert other in entries && other.name != e.name;
        forall p | p in next ensures !(rel + [other.name] <= p) {
          ChildIsBelow(rel, e.name, p);
          ChildIsBelow(rel, other.name, p);
        }
      }
      EntriesAreDistinct(rest, rel, depth, next);
      forall p | p in next && p !in found ensures rel <= p {
        ChildIsBelow(rel, e.name, p);
      }
    }
  }

  lemma {:induction false} EntryIsDistinct(e: Entry, rel: Path, depth: nat, found: seq<Path>)
    requires |rel| == depth <= MAX_DEPTH && Distinct(found) && NoneBelow(found, rel + [e.name])
    requires e.Dir? ==> NamesAreUnique(e.listing)
    ensures var r := ScannedEntry(e, rel, depth, found);
            Distinct(r) && forall p :: p in r ==> p in found || rel + [e.name] <= p
    decreases MAX_DEPTH - depth, 1, 0
  {
    if IsManifest(e) && rel != [] {
      assert rel + [e.name] !in found;
    } else if IsEnterable(e) {
      ScanIsDistinct(e.listing, rel + [e.name], depth + 1, found);
    }
  }

  /** With names unique in each directory, there are at most twelve results, each once. */
  lemma AtMostTwelveDistinct(root: Listing)
    requires NamesAreUnique(root)
    ensures |Scanned(root, [], 0, [])| <= 12 && Distinct(Scanned(root, [], 0, []))
  {
    ScanCount(root, [], 0, []);
    ScanIsDistinct(root, [], 0, []);
  }

  // ---- exactly what is returned ----------------------------------------------------

  function DirOf(p: Path): Path {
    if p == [] then [] else p[..|p| - 1]
  }

  /** Whether `p` stands in a directory that the search is still in when it adds `last`, but not its own. */
  predicate OnTheWayOut(p: Path, last: Path) {
    DirOf(p) < DirOf(last)
  }

  function WayOut(paths: seq<Path>, last: Path): seq<Path> {
    if paths == [] then []
    else (if OnTheWayOut(paths[0], last) then [paths[0]] else []) + WayOut(paths[1..], last)
  }

  /** The first `room` paths, and those met on the way out of the directory of the last of them. */
  function Kept(room: nat, all: seq<Path>): seq<Path>
    requires room > 0
  {
    if |all| < room then all else all[..room] + WayOut(all[room..], all[room - 1])
  }

  lemma {:induction false} WayOutConcat(a: seq<Path>, b: seq<Path>, last: Path)
    ensures WayOut(a + b, last) == WayOut(a, last) + WayOut(b, last)
  {
    if a == [] {
      assert a + b == b;
    } else {
      WayOutConcat(a[1..], b, last);
      assert (a + b)[0] == a[0] && (a + b)[1..] == a[1..] + b;
      Reassociate(if OnTheWayOut(a[0], last) then [a[0]] else [], WayOut(a[1..], last), WayOut(b, last));
    }
  }

  lemma {:induction false} NoneOnTheWay(paths: seq<Path>, last: Path)
    requires forall p :: p in paths ==> !OnTheWayOut(p, last)
    ensures WayOut(paths, last) == []
  {
    if paths == [] {
    } else {
      NoneOnTheWay(paths[1..], last);
    }
  }

  /** The manifests standing in a directory at `rel` itself. */
  function OwnPath(e: Entry, rel: Path): seq<Path> {
    if IsManifest(e) && rel != [] then [rel + [MANIFEST]] else []
  }

  function OwnPaths(entries: seq<Entry>, rel: Path): seq<Path> {
    if entries == [] then [] else OwnPath(entries[0], rel) + OwnPaths(entries[1..], rel)
  }

  lemma FirstEntryScanned(entries: seq<Entry>, rel: Path, depth: nat, found: seq<Path>, next: seq<Path>)
    requires depth <= MAX_DEPTH && entries != [] && next == ScannedEntry(entries[0], rel, depth, found)
    ensures ScannedEntries(entries, rel, depth, found) == ScannedEntries(entries[1..], rel, depth, next)
  {
  }

  /** With enough found, only a directory's own manifests are still added. */
  lemma {:induction false} FullEntries(entries: seq<Entry>, rel: Path, depth: nat, found: seq<Path>)
    requires depth <= MAX_DEPTH && |found| >= ENOUGH
    ensures ScannedEntries(entries, rel, depth, found) == found + OwnPaths(entries, rel)
  {
    if entries == [] {
    } else {
      var own := OwnPath(entries[0], rel);
      FirstEntryScanned(entries, rel, depth, found, found + own);
      FullEntries(entries[1..], rel, depth, found + own);
      Reassociate(found, own, OwnPaths(entries[1..], rel));
    }
  }

  /** Everything below an entry stands in a directory below the entry. */
  lemma EntryPathsAreBelow(e: Entry, rel: Path, depth: nat, p: Path)
    requires |rel| == depth <= MAX_DEPTH && IsEnterable(e) && p in UnguardedEntry(e, rel, depth)
    ensures rel + [e.name] <= DirOf(p)
  {
    UnguardedFinds(e.listing, rel + [e.name], depth + 1, p);
  }

  lemma WayOutOfEntry(e: Entry, rel: Path, depth: nat, last: Path)
    requires |rel| == depth <= MAX_DEPTH && rel <= DirOf(last)
    requires |DirOf(last)| > |rel| ==> e.name != DirOf(last)[|rel|]
    ensures WayOut(UnguardedEntry(e, rel, depth), last) ==
            if IsManifest(e) && rel != [] && |DirOf(last)| > |rel| then [rel + [MANIFEST]] else []
  {
    var here := UnguardedEntry(e, rel, depth);
    if IsManifest(e) && rel != [] {
      assert DirOf(here[0]) == rel && here[1..] == [];
    } else {
      forall p | p in here ensures !OnTheWayOut(p, last) {
        EntryPathsAreBelow(e, rel, depth, p);
        ChildIsBelow(rel, e.name, DirOf(last));
      }
      NoneOnTheWay(here, last);
    }
  }

  /** Of what is below `entries`, only their directory's own manifests are on the way out of another entry. */
  lemma {:induction false} WayOutOfEntries(entries: seq<Entry>, rel: Path, depth: nat, last: Path)
    requires |rel| == depth <= MAX_DEPTH && rel <= DirOf(last)
    requires |DirOf(last)| > |rel| ==> forall e :: e in entries ==> e.name != DirOf(last)[|rel|]
    ensures WayOut(UnguardedEntries(entries, rel, depth), last) ==
            if |DirOf(last)| > |rel| then OwnPaths(entries, rel) else []
  {
    if entries == [] {
    } else {
      var e := entries[0];
      var here := UnguardedEntry(e, rel, depth);
      WayOutOfEntries(entries[1..], rel, depth, last);
      WayOutConcat(here, UnguardedEntries(entries[1..], rel, depth), last);
      WayOutOfEntry(e, rel, depth, last);
    }
  }

  lemma SkippedParts(room: nat, some: seq<Path>, more: seq<Path>)
    requires |some| < room <= |some| + |more|
    ensures var all, left := some + more, room - |some|;
            all[..room] == some + more[..left] && all[room..] == more[left..] && all[room - 1] == more[left - 1]
  {
  }

  lemma KeptSkips(room: nat, some: seq<Path>, more: seq<Path>)
    requires |some| < room
    ensures Kept(room, some + more) == some + Kept(room - |some|, more)
  {
    var left := room - |some|;
    if |more| >= left {
      SkippedParts(room, some, more);
      Reassociate(some, more[..left], WayOut(more[left..], more[left - 1]));
    }
  }

  lemma KeptThenWayOut(room: nat, some: seq<Path>, more: seq<Path>)
    requires 0 < room <= |some|
    ensures Kept(room, some + more) == Kept(room, some) + WayOut(more, some[room - 1])
  {
    var all, last := some + more, some[room - 1];
    assert all[..room] == some[..room] && all[room..] == some[room..] + more;
    WayOutConcat(some[room..], more, last);
  }

  /** What a search of a directory at `rel` returns, with `all` there to find. */
  ghost predicate KeepsTen(found: seq<Path>, all: seq<Path>, result: seq<Path>)
    requires |found| < ENOUGH
  {
    result == found + Kept(ENOUGH - |found|, all)
  }

  lemma RoomIsLeft(found: seq<Path>, here: seq<Path>, next: seq<Path>, more: seq<Path>, result: seq<Path>)
    requires |found| < ENOUGH && KeepsTen(found, here, next) && |here| < ENOUGH - |found|
    requires KeepsTen(next, more, result)
    ensures KeepsTen(found, here + more, result)
  {
    KeptSkips(ENOUGH - |found|, here, more);
    Reassociate(found, here, Kept(ENOUGH - |next|, more));
  }

  lemma NoRoomIsLeft(found: seq<Path>, here: seq<Path>, next: seq<Path>, more: seq<Path>, result: seq<Path>)
    requires |found| < ENOUGH && KeepsTen(found, here, next) && |here| >= ENOUGH - |found|
    requires result == next + WayOut(more, here[ENOUGH - |found| - 1])
    ensures KeepsTen(found, here + more, result)
  {
    var room := ENOUGH - |found|;
    KeptThenWayOut(room, here, more);
    Reassociate(found, Kept(room, here), WayOut(more, here[room - 1]));
  }

  ghost predicate AreUnique(entries: seq<Entry>) {
    && (forall j, k :: 0 <= j < k < |entries| ==> entries[j].name != entries[k].name)
    && (forall e :: e in entries && e.Dir? ==> NamesAreUnique(e.listing))
  }

  lemma RestIsUnique(entries: seq<Entry>)
    requires entries != [] && AreUnique(entries)
    ensures AreUnique(entries[1..]) && forall other :: other in entries[1..] ==> other.name != entries[0].name
    ensures entries[0].Dir? ==> NamesAreUnique(entries[0].listing)
  {
  }

  lemma {:induction false} ScanKeepsTen(listing: Listing, rel: Path, depth: nat, found: seq<Path>)
    requires |rel| == depth && NamesAreUnique(listing) && |found| < ENOUGH
    ensures KeepsTen(found, Unguarded(listing, rel, depth), Scanned(listing, rel, depth, found))
    decreases if depth > MAX_DEPTH then 0 else MAX_DEPTH + 1 - depth, 0, 1
  {
    if depth > MAX_DEPTH || listing.Unreadable? {
    } else {
      assert AreUnique(listing.entries);
      EntriesKeepTen(listing.entries, rel, depth, found);
    }
  }

  lemma {:induction false} NoOwnPaths(entries: seq<Entry>, rel: Path)
    requires forall e :: e in entries ==> e.name != MANIFEST
    ensures OwnPaths(entries, rel) == []
  {
    if entries == [] {
    } else {
      NoOwnPaths(entries[1..], rel);
    }
  }

  /** Once an entry has filled the list, what the rest of its directory adds is what is on the way out. */
  lemma RestIsOnTheWayOut(e: Entry, rest: seq<Entry>, rel: Path, depth: nat, last: Path)
    requires |rel| == depth <= MAX_DEPTH && last in UnguardedEntry(e, rel, depth)
    requires forall other :: other in rest ==> other.name != e.name
    ensures WayOut(UnguardedEntries(rest, rel, depth), last) == OwnPaths(rest, rel)
  {
    if IsManifest(e) && rel != [] {
      assert DirOf(last) == rel;
      NoOwnPaths(rest, rel);
    } else {
      EntryPathsAreBelow(e, rel, depth, last);
      ChildIsBelow(rel, e.name, DirOf(last));
    }
    WayOutOfEntries(rest, rel, depth, last);
  }

  lemma {:induction false} EntriesKeepTen(entries: seq<Entry>, rel: Path, depth: nat, found: seq<Path>)
    requires |rel| == depth <= MAX_DEPTH && |found| < ENOUGH && AreUnique(entries)
    ensures KeepsTen(found, UnguardedEntries(entries, rel, depth), ScannedEntries(entries, rel, depth, found))
    decreases MAX_DEPTH - depth, 1, |entries|, 1
  {
    if entries == [] {
    } else {
      var e, rest := entries[0], entries[1..];
      var here, more := UnguardedEntry(e, rel, depth), UnguardedEntries(rest, rel, depth);
      var next := ScannedEntry(e, rel, depth, found);
      RestIsUnique(entries);
      EntryKeepsTen(e, rel, depth, found);
      if |here| < ENOUGH - |found| {
        EntriesKeepTen(rest, rel, depth, next);
        RoomIsLeft(found, here, next, more, ScannedEntries(rest, rel, depth, next));
      } else {
        FullEntries(rest, rel, depth, next);
        RestIsOnTheWayOut(e, rest, rel, depth, here[ENOUGH - |found| - 1]);
        NoRoomIsLeft(found, here, next, more, ScannedEntries(rest, rel, depth, next));
      }
    }
  }

  lemma {:induction false} EntryKeepsTen(e: Entry, rel: Path, depth: nat, found: seq<Path>)
    requires |rel| == depth <= MAX_DEPTH && |found| < ENOUGH && (e.Dir? ==> NamesAreUnique(e.listing))
    ensures KeepsTen(found, UnguardedEntry(e, rel, depth), ScannedEntry(e, rel, depth, found))
    decreases MAX_DEPTH - depth, 1, 0
  {
    if IsEnterable(e) {
      ScanKeepsTen(e.listing, rel + [e.name], depth + 1, found);
    } else {
    }
  }

  /**
   With unique names, the search returns the first ten manifests there are, in order, and of the
   others just those standing in a directory around the tenth's.
   */
  lemma FirstTenThenTheWayOut(root: Listing)
    requires NamesAreUnique(root)
    ensures Scanned(root, [], 0, []) == Kept(ENOUGH, Unguarded(root, [], 0))
  {
    ScanKeepsTen(root, [], 0, []);
    assert [] + Kept(ENOUGH, Unguarded(root, [], 0)) == Kept(ENOUGH, Unguarded(root, [], 0));
  }

  lemma {:induction false} SomeOnTheWay(paths: seq<Path>, last: Path)
    ensures WayOut(paths, last) != [] <==> exists k :: 0 <= k < |paths| && OnTheWayOut(paths[k], last)
  {
    if paths == [] {
    } else {
      SomeOnTheWay(paths[1..], last);
      assert forall k :: 0 < k < |paths| ==> paths[k] == paths[1..][k - 1];
      assert forall k :: 0 <= k < |paths| - 1 ==> paths[1..][k] == paths[k + 1];
    }
  }

  /** It returns more than ten exactly if a later manifest stands in a directory around the tenth's. */
  lemma MoreThanTenExactly(root: Listing)
    requires NamesAreUnique(root)
    ensures var all := Unguarded(root, [], 0);
            |Scanned(root, [], 0, [])| > ENOUGH <==>
            exists k :: ENOUGH <= k < |all| && OnTheWayOut(all[k], all[ENOUGH - 1])
  {
    var all := Unguarded(root, [], 0);
    FirstTenThenTheWayOut(root);
    if |all| >= ENOUGH {
      var later := all[ENOUGH..];
      SomeOnTheWay(later, all[ENOUGH - 1]);
      assert forall k :: ENOUGH <= k < |all| ==> all[k] == later[k - ENOUGH];
      assert forall k :: 0 <= k < |later| ==> later[k] == all[k + ENOUGH];
    }
  }

  // ---- twelve are reached ----------------------------------------------------------

  function Name(n: nat): string {
    if n == 0 then "a" else "a" + Name(n - 1)
  }

  /** `n` directories with one manifest each. */
  function Shallow(n: nat): seq<Entry> {
    if n == 0 then [] else Shallow(n - 1) + [Dir(Name(n - 1), Listed([File(MANIFEST)]))]
  }

  /** A manifest at each of the three levels, the deepest first. */
  const DEEP := Dir("b", Listed([
    Dir("c", Listed([
      Dir("d", Listed([File(MANIFEST)])),
      File(MANIFEST)])),
    File(MANIFEST)]))

  lemma {:induction false} EntriesConcat(a: seq<Entry>, b: seq<Entry>, rel: Path, depth: nat, found: seq<Path>)
    requires depth <= MAX_DEPTH
    ensures ScannedEntries(a + b, rel, depth, found) ==
            ScannedEntries(b, rel, depth, ScannedEntries(a, rel, depth, found))
    decreases |a|
  {
    if a == [] {
      assert a + b == b;
    } else {
      assert (a + b)[1..] == a[1..] + b;
      EntriesConcat(a[1..], b, rel, depth, ScannedEntry(a[0], rel, depth, found));
    }
  }

  lemma {:induction false} NameLength(n: nat)
    ensures |Name(n)| == n + 1 && Name(n)[0] == 'a' && forall i :: 0 <= i < |Name(n)| ==> Name(n)[i] == 'a'
  {
    if n == 0 {
    } else {
      NameLength(n - 1);
    }
  }

  lemma NameIsEnterable(n: nat, listing: Listing)
    ensures IsEnterable(Dir(Name(n), listing))
  {
    NameLength(n);
    assert forall s :: s in SKIPPED ==> exists i :: 0 <= i < |s| && s[i] != 'a' by {
      assert "node_modules"[0] != 'a' && ".git"[0] != 'a' && "dist"[0] != 'a' && "build"[0] != 'a' && ".next"[0] != 'a';
      assert "out"[0] != 'a' && "coverage"[0] != 'a' && ".turbo"[0] != 'a' && ".cache"[0] != 'a';
    }
  }

  /** A directory at the root with one manifest adds it, while there is room. */
  lemma ShallowEntry(n: nat, found: seq<Path>)
    requires |found| < ENOUGH
    ensures |ScannedEntry(Dir(Name(n), Listed([File(MANIFEST)])), [], 0, found)| == |found| + 1
  {
    var files := [File(MANIFEST)];
    NameIsEnterable(n, Listed(files));
    var rel := [] + [Name(n)];
    assert files[1..] == [];
    assert ScannedEntries(files, rel, 1, found) == ScannedEntries([], rel, 1, ScannedEntry(files[0], rel, 1, found));
  }

  lemma {:induction false} ShallowCount(n: nat)
    requires n <= ENOUGH
    ensures |ScannedEntries(Shallow(n), [], 0, [])| == n
  {
    if n == 0 {
    } else {
      ShallowCount(n - 1);
      var last := Dir(Name(n - 1), Listed([File(MANIFEST)]));
      var before := ScannedEntries(Shallow(n - 1), [], 0, []);
      EntriesConcat(Shallow(n - 1), [last], [], 0, []);
      ShallowEntry(n - 1, before);
      assert [last][1..] == [];
    }
  }

  /** Two entries scanned in turn. */
  lemma TwoEntries(a: Entry, b: Entry, rel: Path, depth: nat, found: seq<Path>)
    requires depth <= MAX_DEPTH
    ensures ScannedEntries([a, b], rel, depth, found) == ScannedEntry(b, rel, depth, ScannedEntry(a, rel, depth, found))
  {
    assert [a, b][1..] == [b] && [b][1..] == [];
    var next := ScannedEntry(a, rel, depth, found);
    assert ScannedEntries([b], rel, depth, next) == ScannedEntry(b, rel, depth, next);
  }

  lemma DeepEntry(found: seq<Path>)
    requires |found| == 9
    ensures |ScannedEntry(DEEP, [], 0, found)| == 12
  {
    var d, manifest := Dir("d", Listed([File(MANIFEST)])), File(MANIFEST);
    var c := Dir("c", Listed([d, manifest]));
    var b, bc, bcd := [] + ["b"], [] + ["b"] + ["c"], [] + ["b"] + ["c"] + ["d"];
    assert DEEP.name[0] == 'b' && c.name[0] == 'c' && d.name[0] == 'd';
    assert |DEEP.name| == |c.name| == |d.name| == 1;
    assert IsEnterable(d) && IsEnterable(c) && IsEnterable(DEEP);
    assert [manifest][1..] == [];
    assert ScannedEntries([manifest], bcd, 3, found) == ScannedEntry(manifest, bcd, 3, found);
    assert |ScannedEntry(d, bc, 2, found)| == 10;
    TwoEntries(d, manifest, bc, 2, found);
    assert |ScannedEntry(c, b, 1, found)| == 11;
    TwoEntries(c, manifest, b, 1, found);
  }

  lemma {:induction false} ShallowNamesAreUnique(n: nat)
    ensures |Shallow(n)| == n
    ensures forall k :: 0 <= k < n ==> Shallow(n)[k] == Dir(Name(k), Listed([File(MANIFEST)]))
  {
    if n == 0 {
    } else {
      ShallowNamesAreUnique(n - 1);
    }
  }

  lemma DeepNamesAreUnique()
    ensures NamesAreUnique(DEEP.listing)
  {
    var bottom := Listed([File(MANIFEST)]);
    var middle := Listed([Dir("d", bottom), File(MANIFEST)]);
    assert |"d"| == |"c"| == 1 && |MANIFEST| == 9;
    assert NamesAreUnique(bottom);
    assert NamesAreUnique(middle);
  }

  lemma WholeTreeNamesAreUnique()
    ensures NamesAreUnique(Listed(Shallow(9) + [DEEP]))
  {
    var entries := Shallow(9) + [DEEP];
    ShallowNamesAreUnique(9);
    DeepNamesAreUnique();
    forall j, k | 0 <= j < k < |entries| ensures entries[j].name != entries[k].name {
      NameLength(j);
      NameLength(k);
      assert DEEP.name[0] == 'b';
    }
    assert NamesAreUnique(Listed([File(MANIFEST)]));
    forall e | e in entries && e.Dir? ensures NamesAreUnique(e.listing) {
      assert e == DEEP || e in Shallow(9);
    }
  }

  lemma OneEntry(e: Entry, rel: Path, depth: nat, found: seq<Path>)
    requires depth <= MAX_DEPTH
    ensures ScannedEntries([e], rel, depth, found) == ScannedEntry(e, rel, depth, found)
  {
    assert [e][1..] == [];
  }

  /** Nine directories with one manifest each, then one with a manifest at each level below it. */
  lemma NineThenDeep(entries: seq<Entry>)
    requires entries == Shallow(9) + [DEEP]
    ensures |ScannedEntries(entries, [], 0, [])| == 12
  {
    var before := ScannedEntries(Shallow(9), [], 0, []);
    ShallowCount(9);
    EntriesConcat(Shallow(9), [DEEP], [], 0, []);
    DeepEntry(before);
    OneEntry(DEEP, [], 0, before);
  }

  lemma RootIsScanned(entries: seq<Entry>)
    ensures Scanned(Listed(entries), [], 0, []) == ScannedEntries(entries, [], 0, [])
  {
  }

  /** A well-formed tree for which the search returns twelve. */
  lemma TwelveAreReached()
    ensures exists root :: NamesAreUnique(root) && |Scanned(root, [], 0, [])| == 12
  {
    var entries := Shallow(9) + [DEEP];
    WholeTreeNamesAreUnique();
    NineThenDeep(entries);
    RootIsScanned(entries);
    assert NamesAreUnique(Listed(entries));
  }
}
