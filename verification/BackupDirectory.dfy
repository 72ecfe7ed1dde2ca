/** The backup directory as the server works on it. */
module BackupDirectoryModule {
  import opened Options
  import opened Sets
  import opened BackupChains

  class BackupDirectory {
    var archives: Dir

    constructor ()
      ensures archives == map[] && Sound(archives)
    {
      archives := map[];
    }

    /** The newest of the given archives; equal times may be resolved either way. */
    method Newest(names: set<string>) returns (best: string)
      requires names != {} && names <= archives.Keys
      ensures best in names && forall other :: other in names ==> archives[other].m.created <= archives[best].m.created
    {
      HasString(names);
      best :| best in names;
      var rest := names - {best};
      while rest != {}
        invariant rest <= names && best in names
        invariant forall other :: other in names - rest ==> archives[other].m.created <= archives[best].m.created
      {
        HasString(rest);
        var name :| name in rest;
        if archives[name].m.created > archives[best].m.created { best := name; }
        rest := rest - {name};
      }
    }

    method ListArchives() returns (all: seq<string>)
      ensures IsListing(archives, all)
    {
      all := [];
      var rest := archives.Keys;
      while rest != {}
        invariant rest <= archives.Keys
        invariant forall i :: 0 <= i < |all| ==> all[i] in archives && all[i] !in rest
        invariant forall name :: name in archives && name !in rest ==> name in all
        invariant forall i, j :: 0 <= i < j < |all| ==> all[i] != all[j]
        invariant forall i, j :: 0 <= i < j < |all| ==> archives[all[j]].m.created <= archives[all[i]].m.created
        invariant forall i, name :: 0 <= i < |all| && name in rest ==>
            archives[name].m.created <= archives[all[i]].m.created
      {
        var name := Newest(rest);
        all := all + [name];
        rest := rest - {name};
      }
    }

    method Latest(kind: Kind) returns (name: Option<string>)
      ensures name.Some? ==>
          && name.value in archives && (kind.Cumulative? ==> archives[name.value].m.kind.Full?)
          && forall other :: other in archives && (kind.Cumulative? ==> archives[other].m.kind.Full?) ==>
               archives[other].m.created <= archives[name.value].m.created
      ensures name.None? <==> forall other :: other in archives ==> kind.Cumulative? && !archives[other].m.kind.Full?
    {
      var all := ListArchives();
      var i := 0;
      while i < |all|
        invariant 0 <= i <= |all|
        invariant forall j :: 0 <= j < i ==> !Eligible(archives, kind, all[j])
      {
        if Eligible(archives, kind, all[i]) { return Some(all[i]); }
        i := i + 1;
      }
      return None;
    }

    method ListChains(all: seq<string>) returns (ids: seq<string>)
      requires forall i :: 0 <= i < |all| ==> all[i] in archives
      ensures ids == ChainIds(archives, all)
    {
      ids := [];
      var seen: set<string> := {};
      var i := 0;
      while i < |all|
        invariant 0 <= i <= |all| && ids == ChainIds(archives, all[..i])
        invariant forall id :: id in seen <==> id in ids
      {
        var id := archives[all[i]].m.chain;
        assert all[..i + 1][..i] == all[..i];
        if id !in seen {
          seen := seen + {id};
          ids := ids + [id];
        }
        i := i + 1;
      }
      assert all[..|all|] == all;
    }

    method PruneChains(keep: nat, justWritten: string) returns (ghost listing: seq<string>)
      requires justWritten in archives
      modifies this
      ensures IsListing(old(archives), listing)
      ensures archives == Prune(old(archives), listing, keep, justWritten)
    {
      var all := ListArchives();
      listing := all;
      var ids := ListChains(all);
      if |ids| <= keep { return; }
      var kept: set<string> := {};
      var i := 0;
      while i < keep && i < |ids|
        invariant 0 <= i <= keep && i <= |ids|
        invariant forall id :: id in kept <==> id in ids[..i]
      {
        kept := kept + {ids[i]};
        i := i + 1;
      }
      kept := kept + {archives[justWritten].m.chain};
      archives := map name | name in archives && archives[name].m.chain in kept :: archives[name];
    }

    /** Walks the images: records all of them, stores what a second read of the
        changed ones finds, and notes those that have become unreadable. */
    method StoreImages(before: Images, state: Images, read: Images)
      returns (stored: Images, current: Images, failed: set<string>)
      ensures current == state
      ensures stored == map p | p in Changed(before, state) && p in read :: read[p]
      ensures failed == Changed(before, state).Keys - read.Keys
    {
      stored, current, failed := map[], map[], {};
      var rest := state.Keys;
      while rest != {}
        invariant rest <= state.Keys
        invariant current == map p | p in state && p !in rest :: state[p]
        invariant stored == map p | p in state && p !in rest && Differs(before, state, p)
            && p in read :: read[p]
        invariant failed == set p | p in state && p !in rest && Differs(before, state, p) && p !in read
      {
        HasString(rest);
        var rel :| rel in rest;
        rest := rest - {rel};
        current := current[rel := state[rel]];
        if Differs(before, state, rel) {
          if rel in read { stored := stored[rel := read[rel]]; } else { failed := failed + {rel}; }
        }
      }
    }

    method ListDeleted(before: Images, state: Images) returns (deleted: set<string>)
      ensures deleted == before.Keys - state.Keys
    {
      deleted := {};
      var rest := before.Keys;
      while rest != {}
        invariant rest <= before.Keys && deleted == (before.Keys - rest) - state.Keys
      {
        HasString(rest);
        var rel :| rel in rest;
        rest := rest - {rel};
        if rel !in state { deleted := deleted + {rel}; }
      }
    }

    /** Walks from an archive to its full backup, putting each base in front. */
    method ResolveArchives(name: string) returns (chain: Option<seq<string>>)
      ensures chain == ResolveChain(archives, name, 0)
    {
      var found: seq<string> := [];
      var current, hops := name, 0;
      ghost var whole := ResolveChain(archives, name, 0);
      assert whole.Some? ==> whole.value + found == whole.value;
      while true
        invariant 0 <= hops <= MAX_HOPS + 1
        invariant var rest := ResolveChain(archives, current, hops);
                  ResolveChain(archives, name, 0) == if rest.None? then None else Some(rest.value + found)
        decreases MAX_HOPS + 1 - hops
      {
        if hops > MAX_HOPS { return None; }
        if current !in archives { return None; }
        var m := archives[current].m;
        if m.kind.Full? { return Some([current] + found); }
        if m.base == "" { return None; }
        ghost var rest := ResolveChain(archives, m.base, hops + 1);
        assert rest.Some? ==> (rest.value + [current]) + found == rest.value + ([current] + found);
        found := [current] + found;
        current, hops := m.base, hops + 1;
      }
    }

    /** Extracts every archive over the live images, then removes the images the
        last manifest does not list. */
    method RestoreChain(chain: seq<string>, live: Images) returns (restored: Option<Images>)
      requires chain != [] && forall i :: 0 <= i < |chain| ==> chain[i] in archives
      ensures restored == Restore(archives, chain, live)
    {
      if !archives[chain[0]].m.kind.Full? { return None; }
      var images := live;
      var i := 0;
      while i < |chain|
        invariant 0 <= i <= |chain| && images == Extract(archives, chain[..i], live)
      {
        images := images + archives[chain[i]].stored;
        assert chain[..i + 1][..i] == chain[..i];
        i := i + 1;
      }
      assert chain[..|chain|] == chain;
      var keep := archives[chain[|chain| - 1]].m.images;
      ghost var written := images;
      var stale := images.Keys - keep.Keys;
      images := images - stale;
      assert images == Only(written, keep.Keys);
      return Some(images);
    }

    /** One backup run. It fails, and changes nothing, when there is no base or an
        image cannot be hashed (hashed is None); the caller has already found a
        name no archive has. */
    method CreateModeBackup(
      kind: Kind, name: string, hashed: Option<Images>, read: Images, now: int, chain: string, keep: nat)
      returns (ok: bool, ghost op: Op)
      requires name != "" && name !in archives && "" !in archives
      modifies this
      ensures ok <==>
                && hashed.Some?
                && (kind.Full?
                    || exists other :: other in old(archives)
                                       && (kind.Cumulative? ==> old(archives)[other].m.kind.Full?))
      ensures !ok ==> archives == old(archives)
      ensures ok ==>
        && op.kind == kind && op.name == name && op.state == hashed.value && op.read == read
        && op.now == now && op.chain == chain && op.keep == keep
        && Allowed(old(archives), op) && archives == Apply(old(archives), op)
    {
      op := Op(kind, "", name, map[], read, now, chain, keep, []);
      var base := "";
      if !kind.Full? {
        var found := Latest(kind);
        if found.None? { return false, op; }
        base := found.value;
      }
      if hashed.None? { return false, op; }
      var state := hashed.value;
      op := op.(base := base, state := state);
      ok := true;
      var before := if base == "" then map[] else archives[base].m.images;
      var stored, current, failed := StoreImages(before, state, read);
      var deleted: set<string> := {};
      if !kind.Full? { deleted := ListDeleted(before, state); }
      var m := Manifest(kind,
                        if base == "" then chain else archives[base].m.chain,
                        if base == "" then 0 else archives[base].m.sequence + 1,
                        base, now, current, deleted, failed);
      archives := archives[name := Archive(m, stored)];
      assert deleted == before.Keys - state.Keys;
      assert Archive(m, stored) == NewArchive(old(archives), kind, base, state, read, now, chain);
      if keep > 0 {
        var listing := PruneChains(keep, name);
        op := op.(listing := listing);
      } else {
        var listing := ListArchives();
        op := op.(listing := listing);
      }
    }
  }
}
