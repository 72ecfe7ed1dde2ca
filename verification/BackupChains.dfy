/** Backup archives that store only what changed, the chains they form, and
    what restoring the end of a chain yields. */
module BackupChains {
  import opened Options

  datatype Kind = Full | Incremental | Cumulative

  /** Image path to checksum; two images are the same when their checksums are. */
  type Images = map<string, string>

  /** The part of a manifest chains are built from. An empty base stands for none. */
  datatype Manifest = Manifest(
    kind: Kind, chain: string, sequence: nat, base: string, created: int,
    images: Images, deleted: set<string>, unreadable: set<string>)

  /** An archive: its manifest and the images it really stores. */
  datatype Archive = Archive(m: Manifest, stored: Images)

  /** The backup directory: archive file name to archive. */
  type Dir = map<string, Archive>

  const MAX_HOPS := 10000

  // ------------------------------------------------------------------------ writing

  /** A candidate base: any archive for an incremental, a full one for a cumulative. */
  predicate Eligible(dir: Dir, kind: Kind, name: string) {
    name in dir && (kind.Cumulative? ==> dir[name].m.kind.Full?)
  }

  /** One of the newest eligible archives; equal times may be returned in any order. */
  predicate IsLatest(dir: Dir, kind: Kind, name: string) {
    Eligible(dir, kind, name)
    && forall other :: other in dir && Eligible(dir, kind, other) ==> dir[other].m.created <= dir[name].m.created
  }

  predicate Differs(before: Images, now: Images, path: string)
    requires path in now
  {
    path !in before || before[path] != now[path]
  }

  function Changed(before: Images, now: Images): Images {
    map p | p in now && Differs(before, now, p) :: now[p]
  }

  /** The archive a run writes for an image state, given the base's recorded
      state. Every image to be stored is read again later: `read` is what that
      yields, and lacks the images that have become unreadable. */
  function NewArchive(
    dir: Dir, kind: Kind, base: string, state: Images, read: Images, now: int, chain: string): Archive
    requires base != "" ==> base in dir
  {
    var before := if base == "" then map[] else dir[base].m.images;
    var changed := Changed(before, state);
    Archive(
      Manifest(kind,
               if base == "" then chain else dir[base].m.chain,
               if base == "" then 0 else dir[base].m.sequence + 1,
               base, now, state, before.Keys - state.Keys, changed.Keys - read.Keys),
      map p | p in changed && p in read :: read[p])
  }

  // --------------------------------------------------------------------- restoring

  /** The archives needed to restore one, oldest first. */
  function ResolveChain(dir: Dir, name: string, hops: nat): Option<seq<string>>
    decreases MAX_HOPS + 1 - hops
  {
    if hops > MAX_HOPS || name !in dir then None
    else if dir[name].m.kind.Full? then Some([name])
    else if dir[name].m.base == "" then None
    else
      var older := ResolveChain(dir, dir[name].m.base, hops + 1);
      if older.None? then None else Some(older.value + [name])
  }

  /** The images directory after extracting every archive in order. */
  function Extract(dir: Dir, chain: seq<string>, live: Images): Images
    requires forall i :: 0 <= i < |chain| ==> chain[i] in dir
  {
    if chain == [] then live else Extract(dir, chain[..|chain| - 1], live) + dir[chain[|chain| - 1]].stored
  }

  /** Extraction over whatever images are there, then removal of every image the
      last manifest does not list. A chain that does not start with a full backup is refused. */
  function Restore(dir: Dir, chain: seq<string>, live: Images): Option<Images>
    requires chain != [] && forall i :: 0 <= i < |chain| ==> chain[i] in dir
  {
    if !dir[chain[0]].m.kind.Full? then None
    else
      var written := Extract(dir, chain, live);
      var keep := dir[chain[|chain| - 1]].m.images.Keys;
      Some(Only(written, keep))
  }

  function Only(images: Images, keep: set<string>): Images {
    map p | p in images && p in keep :: images[p]
  }

  // --------------------------------------------------------------------- invariants

  /** How an archive relates to its base. */
  ghost predicate Links(dir: Dir, name: string)
    requires name in dir
  {
    var a := dir[name];
    if a.m.kind.Full? then
      && a.m.base == "" && a.m.sequence == 0
      && a.m.unreadable <= a.m.images.Keys && a.stored.Keys == a.m.images.Keys - a.m.unreadable
    else
      && a.m.base in dir && a.m.base != ""
      && a.m.chain == dir[a.m.base].m.chain && a.m.sequence == dir[a.m.base].m.sequence + 1
      && a.m.deleted == dir[a.m.base].m.images.Keys - a.m.images.Keys
      && a.m.unreadable <= Changed(dir[a.m.base].m.images, a.m.images).Keys
      && a.stored.Keys == Changed(dir[a.m.base].m.images, a.m.images).Keys - a.m.unreadable
  }

  ghost predicate Sound(dir: Dir) {
    "" !in dir && forall name :: name in dir ==> Links(dir, name)
  }

  /** The archive reports no unreadable image, and every image in it has the
      checksum its manifest records. */
  ghost predicate CleanArchive(a: Archive) {
    a.m.unreadable == {} && forall p :: p in a.stored ==> p in a.m.images && a.stored[p] == a.m.images[p]
  }

  /** Every archive of the chain is clean. */
  ghost predicate Clean(dir: Dir, chain: seq<string>) {
    forall i :: 0 <= i < |chain| ==> chain[i] in dir && CleanArchive(dir[chain[i]])
  }

  /** Walking the bases of any archive ends at a full backup after `sequence`
      steps, so the chain resolves exactly when it is not longer than the limit. */
  lemma {:induction false} ChainResolves(dir: Dir, name: string, hops: nat)
    requires Sound(dir) && name in dir && hops <= MAX_HOPS
    ensures ResolveChain(dir, name, hops).Some? <==> hops + dir[name].m.sequence <= MAX_HOPS
    ensures ResolveChain(dir, name, hops).Some? ==>
              var chain := ResolveChain(dir, name, hops).value;
              && |chain| == dir[name].m.sequence + 1 && chain[|chain| - 1] == name
              && (forall i :: 0 <= i < |chain| ==>
                    chain[i] in dir && dir[chain[i]].m.chain == dir[name].m.chain && dir[chain[i]].m.sequence == i)
              && dir[chain[0]].m.kind.Full?
              && (!dir[name].m.kind.Full? ==>
                    hops < MAX_HOPS && ResolveChain(dir, dir[name].m.base, hops + 1) == Some(chain[..|chain| - 1]))
    decreases dir[name].m.sequence
  {
    assert Links(dir, name);
    if !dir[name].m.kind.Full? && hops < MAX_HOPS {
      ChainResolves(dir, dir[name].m.base, hops + 1);
    }
  }

  /** On the paths the last manifest lists, extraction of a clean chain yields
      exactly what the manifest records. */
  lemma {:induction false} ExtractionMatchesManifest(dir: Dir, name: string, hops: nat, live: Images)
    requires Sound(dir) && name in dir && hops + dir[name].m.sequence <= MAX_HOPS
    requires ResolveChain(dir, name, hops).Some? && Clean(dir, ResolveChain(dir, name, hops).value)
    ensures var written := Extract(dir, ResolveChain(dir, name, hops).value, live);
            forall p :: p in dir[name].m.images ==> p in written && written[p] == dir[name].m.images[p]
    decreases dir[name].m.sequence
  {
    ChainResolves(dir, name, hops);
    var chain := ResolveChain(dir, name, hops).value;
    assert Links(dir, name) && CleanArchive(dir[chain[|chain| - 1]]);
    if !dir[name].m.kind.Full? {
      ExtractionMatchesManifest(dir, dir[name].m.base, hops + 1, live);
    }
  }

  /** Restoring a clean chain rebuilds, over any live images, exactly the images
      that existed when its last archive was written. */
  lemma RestoreRebuilds(dir: Dir, name: string, live: Images)
    requires Sound(dir) && name in dir && dir[name].m.sequence <= MAX_HOPS
    requires var chain := ResolveChain(dir, name, 0); chain.Some? ==> Clean(dir, chain.value)
    ensures var chain := ResolveChain(dir, name, 0);
      && chain.Some? && chain.value != [] && (forall i :: 0 <= i < |chain.value| ==> chain.value[i] in dir)
      && Restore(dir, chain.value, live) == Some(dir[name].m.images)
  {
    ChainResolves(dir, name, 0);
    ExtractionMatchesManifest(dir, name, 0, live);
    var chain := ResolveChain(dir, name, 0).value;
    RestoredWhenExtracted(dir, chain, live);
  }

  lemma RestoredWhenExtracted(dir: Dir, chain: seq<string>, live: Images)
    requires chain != [] && forall i :: 0 <= i < |chain| ==> chain[i] in dir
    requires dir[chain[0]].m.kind.Full?
    requires var written, images := Extract(dir, chain, live), dir[chain[|chain| - 1]].m.images;
             forall p :: p in images ==> p in written && written[p] == images[p]
    ensures Restore(dir, chain, live) == Some(dir[chain[|chain| - 1]].m.images)
  {
    hide Extract;
    var written, images := Extract(dir, chain, live), dir[chain[|chain| - 1]].m.images;
    assert Only(written, images.Keys) == images;
  }

  // -------------------------------------------------------------- unreadable images

  /** Whatever the live directory holds, this is the image state a chain restores. */
  ghost predicate RestoresExactly(dir: Dir, chain: seq<string>)
    requires chain != [] && forall i :: 0 <= i < |chain| ==> chain[i] in dir
  {
    forall live :: Restore(dir, chain, live) == Some(dir[chain[|chain| - 1]].m.images)
  }

  /** What the chain stores for a path does not depend on the live directory. */
  lemma {:induction false} ExtractOverlaysLive(dir: Dir, chain: seq<string>, live: Images)
    requires forall i :: 0 <= i < |chain| ==> chain[i] in dir
    ensures Extract(dir, chain, live) == live + Extract(dir, chain, map[])
    decreases |chain|
  {
    if chain != [] {
      ExtractOverlaysLive(dir, chain[..|chain| - 1], live);
    }
  }

  /** chain[i] is the newest archive of the chain that stores the image. */
  ghost predicate NewestStoring(dir: Dir, chain: seq<string>, p: string, i: int)
    requires forall i :: 0 <= i < |chain| ==> chain[i] in dir
  {
    0 <= i < |chain| && p in dir[chain[i]].stored && forall j :: i < j < |chain| ==> p !in dir[chain[j]].stored
  }

  /** The chain holds, as its newest copy, the image the last manifest records. */
  ghost predicate Holds(dir: Dir, chain: seq<string>, p: string, sum: string)
    requires forall i :: 0 <= i < |chain| ==> chain[i] in dir
  {
    exists i :: NewestStoring(dir, chain, p, i) && dir[chain[i]].stored[p] == sum
  }

  /** The chain holds every image its last manifest records. */
  ghost predicate HoldsRecorded(dir: Dir, chain: seq<string>)
    requires chain != [] && forall i :: 0 <= i < |chain| ==> chain[i] in dir
  {
    var m := dir[chain[|chain| - 1]].m;
    forall p :: p in m.images ==> Holds(dir, chain, p, m.images[p])
  }

  /** Extraction leaves the newest stored copy of an image, and the live one
      where no archive stores it. */
  lemma {:induction false} ExtractYieldsNewest(dir: Dir, chain: seq<string>, live: Images, p: string)
    requires forall i :: 0 <= i < |chain| ==> chain[i] in dir
    ensures var written := Extract(dir, chain, live);
      && (forall sum :: Holds(dir, chain, p, sum) ==> p in written && written[p] == sum)
      && (p in written && live == map[] ==> Holds(dir, chain, p, written[p]))
    decreases |chain|
  {
    if chain != [] {
      var n := |chain| - 1;
      var older, written := chain[..n], Extract(dir, chain, live);
      ExtractYieldsNewest(dir, older, live, p);
      forall sum | Holds(dir, chain, p, sum) ensures p in written && written[p] == sum {
        var i :| NewestStoring(dir, chain, p, i) && dir[chain[i]].stored[p] == sum;
        if i < n {
          assert p !in dir[chain[n]].stored && older[i] == chain[i];
          assert NewestStoring(dir, older, p, i) by {
            assert forall j :: i < j < |older| ==> older[j] == chain[j];
          }
          assert Holds(dir, older, p, sum);
        }
      }
      if p in written && live == map[] {
        if p in dir[chain[n]].stored {
          assert NewestStoring(dir, chain, p, n);
        } else {
          var i :| NewestStoring(dir, older, p, i) && dir[older[i]].stored[p] == written[p];
          assert NewestStoring(dir, chain, p, i);
        }
      }
    }
  }

  /** A chain that starts with a full backup restores exactly, over whatever is in
      the live directory, if and only if for every image its last manifest lists
      the newest archive of the chain that stores the image stores the recorded
      content. What could not be read and was not stored again is lost. */
  lemma UnreadableImagesAreLostExactly(dir: Dir, chain: seq<string>)
    requires chain != [] && forall i :: 0 <= i < |chain| ==> chain[i] in dir
    ensures RestoresExactly(dir, chain) <==> dir[chain[0]].m.kind.Full? && HoldsRecorded(dir, chain)
  {
    hide Extract, Holds, Only;
    var images := dir[chain[|chain| - 1]].m.images;
    if dir[chain[0]].m.kind.Full? && HoldsRecorded(dir, chain) {
      forall live ensures Restore(dir, chain, live) == Some(images) {
        forall p | p in images
          ensures p in Extract(dir, chain, live) && Extract(dir, chain, live)[p] == images[p]
        {
          ExtractYieldsNewest(dir, chain, live, p);
        }
        RestoredWhenExtracted(dir, chain, live);
      }
    }
    if RestoresExactly(dir, chain) {
      assert Restore(dir, chain, map[]) == Some(images);
      RestoredIsExtracted(dir, chain, map[]);
      forall p | p in images ensures Holds(dir, chain, p, images[p]) {
        ExtractYieldsNewest(dir, chain, map[], p);
      }
    }
  }

  lemma RestoredIsExtracted(dir: Dir, chain: seq<string>, live: Images)
    requires chain != [] && forall i :: 0 <= i < |chain| ==> chain[i] in dir
    requires dir[chain[0]].m.kind.Full?
    ensures var r := Restore(dir, chain, live); var written := Extract(dir, chain, live);
            r.Some? && forall p :: p in r.value ==> p in written && r.value[p] == written[p]
  {
  }

  /** The loss is inherited: a later archive compares with the manifest, finds
      the image unchanged, and does not store it either. */
  lemma LossIsInherited(dir: Dir, chain: seq<string>, live: Images, p: string)
    requires |chain| >= 2 && forall i :: 0 <= i < |chain| ==> chain[i] in dir
    requires var a, b := dir[chain[|chain| - 1]], dir[chain[|chain| - 2]];
      && a.stored.Keys <= Changed(b.m.images, a.m.images).Keys
      && p in b.m.images && p in a.m.images && a.m.images[p] == b.m.images[p]
    requires dir[chain[0]].m.kind.Full?
    ensures var before, after := Restore(dir, chain[..|chain| - 1], live), Restore(dir, chain, live);
      && before.Some? && after.Some?
      && (p in after.value <==> p in before.value)
      && (p in before.value ==> after.value[p] == before.value[p])
  {
    var older := chain[..|chain| - 1];
    assert older[|older| - 1] == chain[|chain| - 2] && older[0] == chain[0];
  }

  // ------------------------------------------------------------------------ pruning

  /** The archives of a directory, newest first; equal times in any order. */
  ghost predicate IsListing(dir: Dir, all: seq<string>) {
    && (forall i :: 0 <= i < |all| ==> all[i] in dir)
    && (forall name :: name in dir ==> name in all)
    && (forall i, j :: 0 <= i < j < |all| ==> all[i] != all[j])
    && (forall i, j :: 0 <= i < j < |all| ==> dir[all[j]].m.created <= dir[all[i]].m.created)
  }

  /** The chains of a listing, each where its newest archive stands. */
  function ChainIds(dir: Dir, all: seq<string>): (ids: seq<string>)
    requires forall i :: 0 <= i < |all| ==> all[i] in dir
  {
    if all == [] then []
    else
      var ids := ChainIds(dir, all[..|all| - 1]);
      var id := dir[all[|all| - 1]].m.chain;
      if id in ids then ids else ids + [id]
  }

  function Take(ids: seq<string>, keep: nat): seq<string> {
    if keep < |ids| then ids[..keep] else ids
  }

  /** Keep the newest chains and the chain just written to. */
  function Prune(dir: Dir, all: seq<string>, keep: nat, justWritten: string): Dir
    requires forall i :: 0 <= i < |all| ==> all[i] in dir
  {
    var ids := ChainIds(dir, all);
    if |ids| <= keep then dir
    else map name | name in dir &&
           (dir[name].m.chain in Take(ids, keep)
            || (justWritten in dir && dir[name].m.chain == dir[justWritten].m.chain)) :: dir[name]
  }

  /** The listed chains are the chains of the listed archives, each once. */
  lemma {:induction false} ChainIdsMembers(dir: Dir, all: seq<string>)
    requires forall i :: 0 <= i < |all| ==> all[i] in dir
    ensures var ids := ChainIds(dir, all);
      && (forall i :: 0 <= i < |all| ==> dir[all[i]].m.chain in ids)
      && (forall i, j :: 0 <= i < j < |ids| ==> ids[i] != ids[j])
    decreases |all|
  {
    if all != [] {
      ChainIdsMembers(dir, all[..|all| - 1]);
    }
  }

  lemma {:induction false} ChainOccurs(dir: Dir, all: seq<string>, k: nat) returns (i: nat)
    requires forall i :: 0 <= i < |all| ==> all[i] in dir
    requires k < |ChainIds(dir, all)|
    ensures i < |all| && dir[all[i]].m.chain == ChainIds(dir, all)[k]
    decreases |all|
  {
    var front := all[..|all| - 1];
    if k < |ChainIds(dir, front)| {
      i := ChainOccurs(dir, front, k);
    } else {
      i := |all| - 1;
    }
  }

  lemma StaysInPrefix(before: seq<string>, ids: seq<string>, k: nat, id: string)
    requires before <= ids && k <= |ids| && id in before
    ensures k >= |before| ==> id in ids[..k]
  {
  }

  /** Chains stand in the order of their newest archives: an archive whose chain
      is not among the first k is listed at or after some archive of chain k. */
  lemma {:induction false} ChainStartsBefore(dir: Dir, all: seq<string>, k: nat, n: nat) returns (i: nat)
    requires forall i :: 0 <= i < |all| ==> all[i] in dir
    requires k < |ChainIds(dir, all)| && n < |all| && dir[all[n]].m.chain !in ChainIds(dir, all)[..k]
    ensures i <= n && dir[all[i]].m.chain == ChainIds(dir, all)[k]
    decreases |all|
  {
    var front := all[..|all| - 1];
    var before := ChainIds(dir, front);
    ChainIdsMembers(dir, front);
    if n < |front| {
      StaysInPrefix(before, ChainIds(dir, all), k, dir[front[n]].m.chain);
      assert ChainIds(dir, all)[..k] == before[..k];
      i := ChainStartsBefore(dir, front, k, n);
    } else {
      i := ChainOccurs(dir, all, k);
    }
  }

  /** Pruning keeps whole chains: the archives it keeps are unchanged, a kept
      archive's base is kept, and so is the archive just written. */
  lemma PruneKeepsWholeChains(dir: Dir, all: seq<string>, keep: nat, justWritten: string)
    requires Sound(dir) && IsListing(dir, all) && justWritten in dir
    ensures var left := Prune(dir, all, keep, justWritten);
      && Sound(left) && justWritten in left
      && (forall name :: name in left ==> name in dir && left[name] == dir[name])
      && (forall name, other :: name in left && other in dir && dir[other].m.chain == dir[name].m.chain ==>
          other in left)
  {
    var left := Prune(dir, all, keep, justWritten);
    forall name | name in left ensures Links(left, name) {
      assert Links(dir, name);
    }
    hide Links;
  }

  lemma ListingPosition(dir: Dir, all: seq<string>, name: string)
    requires IsListing(dir, all)
    ensures forall i :: 0 <= i < |all| ==> all[i] in dir
    ensures name in dir ==> exists n :: 0 <= n < |all| && all[n] == name
  {
    assert name in dir ==> name in all;
  }

  lemma ListingDescends(dir: Dir, all: seq<string>, i: nat, n: nat)
    requires IsListing(dir, all) && i <= n < |all|
    ensures all[i] in dir && all[n] in dir && dir[all[n]].m.created <= dir[all[i]].m.created
  {
  }

  /** When pruning deletes an archive at all, each of the `keep` first chains
      survives and holds an archive no older than the deleted one. */
  lemma PruneKeepsNewestChains(dir: Dir, all: seq<string>, keep: nat, justWritten: string, name: string, k: nat)
    requires IsListing(dir, all) && justWritten in dir
    requires name in dir && name !in Prune(dir, all, keep, justWritten) && k < keep
    ensures keep < |ChainIds(dir, all)|
    ensures HoldsNoOlder(Prune(dir, all, keep, justWritten), ChainIds(dir, all)[k], dir[name].m.created)
  {
    hide ChainIds, IsListing;
    ListingPosition(dir, all, name);
    var ids := ChainIds(dir, all);
    var n: nat :| n < |all| && all[n] == name;
    assert forall j :: 0 <= j < k ==> ids[j] == Take(ids, keep)[j];
    assert ids[k] == Take(ids, keep)[k];
    var i := ChainStartsBefore(dir, all, k, n);
    ListingDescends(dir, all, i, n);
    assert all[i] in dir && dir[all[i]].m.chain in Take(ids, keep);
    assert all[i] in Prune(dir, all, keep, justWritten);
  }

  ghost predicate HoldsNoOlder(dir: Dir, chain: string, created: int) {
    exists name :: name in dir && dir[name].m.chain == chain && dir[name].m.created >= created
  }

  // --------------------------------------------------------------------- whole runs

  /** One backup run: the caller's choices, the image state it met, and the order
      in which the directory was listed for pruning. */
  datatype Op = Op(
    kind: Kind, base: string, name: string, state: Images, read: Images,
    now: int, chain: string, keep: nat, listing: seq<string>)

  function Written(dir: Dir, op: Op): Dir
    requires op.base != "" ==> op.base in dir
  {
    dir[op.name := NewArchive(dir, op.kind, op.base, op.state, op.read, op.now, op.chain)]
  }

  /** The name is unused, the base is one the run would pick, and the listing is one of the new directory. */
  ghost predicate Allowed(dir: Dir, op: Op) {
    && op.name != "" && op.name !in dir
    && (if op.kind.Full? then op.base == "" else op.base != "" && IsLatest(dir, op.kind, op.base))
    && IsListing(Written(dir, op), op.listing)
  }

  ghost function Apply(dir: Dir, op: Op): Dir
    requires Allowed(dir, op)
  {
    if op.keep > 0 then Prune(Written(dir, op), op.listing, op.keep, op.name) else Written(dir, op)
  }

  /** The images a run stores, if it can read them. */
  function ToStore(dir: Dir, op: Op): Images
    requires op.base != "" ==> op.base in dir
  {
    Changed(if op.base == "" then map[] else dir[op.base].m.images, op.state)
  }

  /** Every image to be stored is still what it was when the state was recorded. */
  ghost predicate ReadAgain(dir: Dir, op: Op)
    requires op.base != "" ==> op.base in dir
  {
    forall p :: p in ToStore(dir, op) ==> p in op.read && op.read[p] == op.state[p]
  }

  /** A new archive is linked to its base, and it is clean exactly when no image
      to be stored changed or vanished after the state was recorded. */
  lemma NewArchiveLinks(dir: Dir, op: Op)
    requires Allowed(dir, op)
    ensures Links(Written(dir, op), op.name)
    ensures CleanArchive(Written(dir, op)[op.name]) <==> ReadAgain(dir, op)
  {
    hide IsListing;
    var changed, a := ToStore(dir, op), Written(dir, op)[op.name];
    if op.kind.Full? { assert changed == op.state; }
    assert a.m.unreadable == changed.Keys - op.read.Keys;
    assert a.stored.Keys == changed.Keys - a.m.unreadable;
    if CleanArchive(a) {
      forall p | p in changed ensures p in op.read && op.read[p] == op.state[p] {
        assert p !in a.m.unreadable && p in a.stored;
      }
    }
  }

  lemma WrittenIsSound(dir: Dir, op: Op)
    requires Sound(dir) && Allowed(dir, op)
    ensures Sound(Written(dir, op))
    ensures CleanArchive(Written(dir, op)[op.name]) <==> ReadAgain(dir, op)
  {
    var after := Written(dir, op);
    NewArchiveLinks(dir, op);
    hide NewArchive, Changed, IsListing, CleanArchive, ReadAgain;
    forall name | name in after ensures Links(after, name) {
      if name != op.name { assert Links(dir, name); }
    }
  }

  /** One run: the archive it writes records the image state and survives, it is
      clean exactly when no image to be stored changed or vanished meanwhile, and
      every other archive is either unchanged or gone. */
  lemma StepKeepsSound(dir: Dir, op: Op)
    requires Sound(dir) && Allowed(dir, op)
    ensures var after := Apply(dir, op);
      && Sound(after)
      && op.name in after && after[op.name].m.images == op.state && after[op.name].m.kind == op.kind
      && (CleanArchive(after[op.name]) <==> ReadAgain(dir, op))
      && (forall name :: name in after && name != op.name ==> name in dir && after[name] == dir[name])
  {
    WrittenIsSound(dir, op);
    PruneKeepsWholeChains(Written(dir, op), op.listing, op.keep, op.name);
    hide Sound, Prune, CleanArchive, ReadAgain;
  }

  ghost predicate AllowedRun(dir: Dir, ops: seq<Op>)
    decreases |ops|
  {
    ops == [] || (Allowed(dir, ops[0]) && AllowedRun(Apply(dir, ops[0]), ops[1..]))
  }

  ghost function ApplyAll(dir: Dir, ops: seq<Op>): Dir
    requires AllowedRun(dir, ops)
    decreases |ops|
  {
    if ops == [] then dir else ApplyAll(Apply(dir, ops[0]), ops[1..])
  }

  /** In every run of full, incremental and cumulative backups with pruning, by
      whatever clock and whatever the later reads of the images find, every
      archive left in the directory resolves to a chain, up to the limit on its
      length. The chain restores exactly the images recorded when the archive was
      written if all its archives are clean, and in general if and only if the
      newest stored copy of each recorded image is the recorded one. */
  lemma {:induction false} EveryArchiveRestores(dir: Dir, ops: seq<Op>, name: string)
    requires Sound(dir) && AllowedRun(dir, ops)
    requires name in ApplyAll(dir, ops) && ApplyAll(dir, ops)[name].m.sequence <= MAX_HOPS
    ensures var after := ApplyAll(dir, ops); var resolved := ResolveChain(after, name, 0);
      && resolved.Some? && resolved.value != []
      && var chain := resolved.value;
         && (forall i :: 0 <= i < |chain| ==> chain[i] in after) && chain[|chain| - 1] == name
         && (Clean(after, chain) ==> RestoresExactly(after, chain))
         && (RestoresExactly(after, chain) <==> HoldsRecorded(after, chain))
    decreases |ops|
  {
    if ops == [] {
      ArchiveRestores(dir, name);
    } else {
      StepKeepsSound(dir, ops[0]);
      hide Apply, Sound, ResolveChain, RestoresExactly, Clean, HoldsRecorded;
      EveryArchiveRestores(Apply(dir, ops[0]), ops[1..], name);
    }
  }

  lemma ArchiveRestores(dir: Dir, name: string)
    requires Sound(dir) && name in dir && dir[name].m.sequence <= MAX_HOPS
    ensures var resolved := ResolveChain(dir, name, 0);
      && resolved.Some? && resolved.value != []
      && var chain := resolved.value;
         && (forall i :: 0 <= i < |chain| ==> chain[i] in dir) && chain[|chain| - 1] == name
         && (Clean(dir, chain) ==> RestoresExactly(dir, chain))
         && (RestoresExactly(dir, chain) <==> HoldsRecorded(dir, chain))
  {
    ChainResolves(dir, name, 0);
    var chain := ResolveChain(dir, name, 0).value;
    UnreadableImagesAreLostExactly(dir, chain);
    if Clean(dir, chain) {
      forall live ensures Restore(dir, chain, live) == Some(dir[name].m.images) { RestoreRebuilds(dir, name, live); }
    }
  }

  /** A full backup of one image, whose second read yields `read`. */
  function OneFull(p: string, sum: string, read: Images): Op {
    Op(Full, "", "full", map[p := sum], read, 1, "c", 0, ["full"])
  }

  /** The next backup, with every image as it was recorded. */
  function OneLater(p: string, sum: string): Op {
    Op(Incremental, "full", "later", map[p := sum], map[p := sum], 2, "", 0, ["later", "full"])
  }

  lemma FullArchive(p: string, sum: string, read: Images)
    ensures Written(map[], OneFull(p, sum, read)).Keys == {"full"}
    ensures var a := Written(map[], OneFull(p, sum, read))["full"];
      && a.m == Manifest(Full, "c", 0, "", 1, map[p := sum], {}, {p} - read.Keys)
      && a.stored == if p in read then map[p := read[p]] else map[]
  {
    var state := map[p := sum];
    var none: Images := map[];
    assert Changed(none, state) == state && none.Keys - state.Keys == {} && state.Keys == {p};
  }

  lemma LaterArchive(p: string, sum: string, read: Images)
    ensures var one, state := Written(map[], OneFull(p, sum, read)), map[p := sum];
      var a := NewArchive(one, Incremental, "full", state, state, 2, "");
      && a.m == Manifest(Incremental, "c", 1, "full", 2, map[p := sum], {}, {})
      && a.stored == map[]
  {
    var state := map[p := sum];
    var none: Images := map[];
    FullArchive(p, sum, read);
    assert Changed(state, state) == none && state.Keys - state.Keys == {} && none.Keys - state.Keys == {};
  }

  lemma FullIsAllowed(p: string, sum: string, read: Images)
    ensures Allowed(map[], OneFull(p, sum, read))
  {
    hide NewArchive, Changed;
    FullArchive(p, sum, read);
    assert ["full"][0] == "full";
  }

  lemma LaterIsAllowed(p: string, sum: string, read: Images)
    ensures Allowed(Written(map[], OneFull(p, sum, read)), OneLater(p, sum))
  {
    hide NewArchive, Changed;
    var one := Written(map[], OneFull(p, sum, read));
    FullArchive(p, sum, read);
    LaterArchive(p, sum, read);
    assert IsLatest(one, Incremental, "full");
    var two, listing := Written(one, OneLater(p, sum)), ["later", "full"];
    assert two.Keys == {"full", "later"} && listing[0] == "later" && listing[1] == "full";
    assert IsListing(two, listing);
  }

  lemma FullRestores(dir: Dir, full: Archive)
    requires "full" in dir && dir["full"] == full && full.m.kind.Full? && full.stored.Keys <= full.m.images.Keys
    ensures ResolveChain(dir, "full", 0) == Some(["full"])
    ensures Restore(dir, ["full"], map[]) == Some(full.stored)
  {
    var live: Images := map[];
    assert ["full"][..0] == [] && Extract(dir, [], live) == live;
    assert Extract(dir, ["full"], live) == live + full.stored == full.stored;
    assert Only(full.stored, full.m.images.Keys) == full.stored;
  }

  lemma LaterRestores(dir: Dir, full: Archive, later: Archive)
    requires dir == map["full" := full, "later" := later]
    requires full.m.kind.Full? && later.m.kind.Incremental? && later.m.base == "full"
    requires full.stored == map[] && later.stored == map[]
    ensures ResolveChain(dir, "later", 0) == Some(["full", "later"])
    ensures Restore(dir, ["full", "later"], map[]) == Some(map[])
  {
    assert ResolveChain(dir, "full", 1) == Some(["full"]) && ["full"] + ["later"] == ["full", "later"];
    var chain: seq<string>, live: Images := ["full", "later"], map[];
    assert chain[..1] == ["full"] && ["full"][..0] == [];
    assert Extract(dir, [], live) == live;
    assert Extract(dir, ["full"], live) == live + full.stored == live;
    assert Extract(dir, chain, live) == live + later.stored == live;
    assert Only(live, later.m.images.Keys) == live;
  }

  /** An image that becomes unreadable before it is stored: the full backup does
      not hold it, the incremental one finds it unchanged, and neither restores it. */
  lemma UnreadableImageIsLost(p: string, sum: string)
    ensures AllowedRun(map[], [OneFull(p, sum, map[]), OneLater(p, sum)])
    ensures var dir := ApplyAll(map[], [OneFull(p, sum, map[]), OneLater(p, sum)]);
      && "full" in dir && "later" in dir
      && dir["later"].m.images == map[p := sum] && dir["later"].m.unreadable == {}
      && ResolveChain(dir, "later", 0) == Some(["full", "later"])
      && Restore(dir, ["full", "later"], map[]) == Some(map[])
  {
    hide Allowed, NewArchive, ResolveChain, Restore;
    var full, later := OneFull(p, sum, map[]), OneLater(p, sum);
    var one := Written(map[], full);
    var two := Written(one, later);
    FullArchive(p, sum, map[]);
    LaterArchive(p, sum, map[]);
    FullIsAllowed(p, sum, map[]);
    LaterIsAllowed(p, sum, map[]);
    assert [full, later][1..] == [later] && [later][1..] == [];
    assert AllowedRun(one, [later]) by { assert AllowedRun(two, []); }
    assert ApplyAll(one, [later]) == two by { assert ApplyAll(two, []) == two; }
    assert two == map["full" := one["full"], "later" := two["later"]];
    LaterRestores(two, one["full"], two["later"]);
  }

  /** An image that is replaced before it is stored: the archive reports nothing
      unreadable, records the old content and restores the new. */
  lemma ReplacedImageIsRestored(p: string, before: string, now: string)
    requires before != now
    ensures AllowedRun(map[], [OneFull(p, before, map[p := now])])
    ensures var dir := ApplyAll(map[], [OneFull(p, before, map[p := now])]);
      && "full" in dir && dir["full"].m.images == map[p := before] && dir["full"].m.unreadable == {}
      && ResolveChain(dir, "full", 0) == Some(["full"])
      && Restore(dir, ["full"], map[]) == Some(map[p := now])
      && !RestoresExactly(dir, ["full"])
  {
    hide Allowed, NewArchive, ResolveChain, Restore;
    var full := OneFull(p, before, map[p := now]);
    var one := Written(map[], full);
    FullArchive(p, before, map[p := now]);
    FullIsAllowed(p, before, map[p := now]);
    assert [full][1..] == [] && AllowedRun(one, []) && ApplyAll(one, []) == one;
    FullRestores(one, one["full"]);
    assert map[p := now][p] != map[p := before][p];
  }
}
