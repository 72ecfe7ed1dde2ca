/** Which archive a run builds on, what it stores, and what a restore reads. */
module BackupBases {
  import opened Options
  import opened BackupChains

  // ------------------------------------------------------------------ one run

  /** The archive a run builds on: none for a full backup, a newest archive of the
      whole directory for an incremental one, and a newest full backup, however
      many other archives are newer, for a cumulative one. */
  lemma BaseMeans(dir: Dir, op: Op)
    requires Allowed(dir, op)
    ensures match op.kind
      case Full => op.base == ""
      case Incremental =>
        && op.base in dir
        && forall other :: other in dir ==> dir[other].m.created <= dir[op.base].m.created
      case Cumulative =>
        && op.base in dir && dir[op.base].m.kind.Full?
        && forall other :: other in dir && dir[other].m.kind.Full? ==> dir[other].m.created <= dir[op.base].m.created
  {
    hide IsListing, Written;
    forall other | other in dir && op.base in dir && (op.kind.Cumulative? ==> dir[other].m.kind.Full?)
      ensures op.kind != Full ==> dir[other].m.created <= dir[op.base].m.created
    {
      assert Eligible(dir, op.kind, other);
    }
  }

  /** The manifest a run writes: a full backup starts a chain of its own, any
      other archive continues its base's. The images of the run's state are
      recorded, and those of the base that are gone are listed as deleted. */
  lemma ManifestMeans(dir: Dir, op: Op)
    requires Sound(dir) && Allowed(dir, op)
    ensures op.name in Apply(dir, op)
    ensures var m := Apply(dir, op)[op.name].m;
      && m.kind == op.kind && m.created == op.now && m.images == op.state && m.base == op.base
      && (if op.kind.Full? then m.chain == op.chain && m.sequence == 0 && m.deleted == {}
          else
            && op.base in dir && m.chain == dir[op.base].m.chain && m.sequence == dir[op.base].m.sequence + 1
            && forall p :: p in m.deleted <==> p in dir[op.base].m.images && p !in op.state)
  {
    hide IsListing;
    ApplyKeepsWritten(dir, op);
  }

  /** What the archive holds: of the images that are new or differ from what the
      base recorded, those a second read finds, as that read finds them; the
      others are noted as unreadable. */
  lemma StoredMeans(dir: Dir, op: Op, p: string)
    requires Sound(dir) && Allowed(dir, op)
    ensures op.name in Apply(dir, op)
    ensures var a := Apply(dir, op)[op.name];
      var wanted := p in op.state && (op.kind.Full? || (op.base in dir && !(p in dir[op.base].m.images
                                                                    && dir[op.base].m.images[p] == op.state[p])));
      && (p in a.stored <==> wanted && p in op.read)
      && (p in a.stored ==> a.stored[p] == op.read[p])
      && (p in a.m.unreadable <==> wanted && p !in op.read)
  {
    hide IsListing;
    ApplyKeepsWritten(dir, op);
  }

  lemma ApplyKeepsWritten(dir: Dir, op: Op)
    requires Sound(dir) && Allowed(dir, op)
    ensures op.name in Apply(dir, op)
    ensures Apply(dir, op)[op.name] == NewArchive(dir, op.kind, op.base, op.state, op.read, op.now, op.chain)
  {
    WrittenIsSound(dir, op);
    hide NewArchive, Sound, IsListing, Prune, Links;
    if op.keep > 0 { PruneKeepsWholeChains(Written(dir, op), op.listing, op.keep, op.name); }
  }

  // --------------------------------------------------------------- cumulative runs

  /** Every cumulative archive builds on a full backup that is still there. */
  ghost predicate CumulativesAreDirect(dir: Dir) {
    forall name :: name in dir && dir[name].m.kind.Cumulative? ==>
      dir[name].m.base in dir && dir[dir[name].m.base].m.kind.Full?
  }

  lemma StepKeepsDirect(dir: Dir, op: Op)
    requires Sound(dir) && Allowed(dir, op) && CumulativesAreDirect(dir)
    ensures CumulativesAreDirect(Apply(dir, op))
  {
    var after := Apply(dir, op);
    BaseMeans(dir, op);
    ManifestMeans(dir, op);
    StepKeepsSound(dir, op);
    hide Allowed, Apply, NewArchive, Links;
    forall name | name in after && after[name].m.kind.Cumulative?
      ensures after[name].m.base in after && after[after[name].m.base].m.kind.Full?
    {
      BaseSurvives(after, name);
    }
  }

  lemma BaseSurvives(dir: Dir, name: string)
    requires Sound(dir) && name in dir && !dir[name].m.kind.Full?
    ensures dir[name].m.base in dir && dir[name].m.sequence == dir[dir[name].m.base].m.sequence + 1
    ensures dir[name].m.base != ""
  {
    assert Links(dir, name);
  }

  /** In every run each cumulative archive needs exactly two archives for a
      restore, a full backup and itself, whatever was written in between. */
  lemma {:induction false} CumulativeNeedsItsFullOnly(dir: Dir, ops: seq<Op>, name: string)
    requires Sound(dir) && CumulativesAreDirect(dir) && AllowedRun(dir, ops)
    requires name in ApplyAll(dir, ops) && ApplyAll(dir, ops)[name].m.kind.Cumulative?
    ensures var after := ApplyAll(dir, ops);
      && after[name].m.sequence == 1 && after[name].m.base in after && after[after[name].m.base].m.kind.Full?
      && ResolveChain(after, name, 0) == Some([after[name].m.base, name])
    decreases |ops|
  {
    if ops == [] {
      BaseSurvives(dir, name);
      assert Links(dir, dir[name].m.base);
      var base := dir[name].m.base;
      assert ResolveChain(dir, base, 1) == Some([base]) && [base] + [name] == [base, name];
    } else {
      StepKeepsSound(dir, ops[0]);
      StepKeepsDirect(dir, ops[0]);
      hide Apply, Sound, ResolveChain, CumulativesAreDirect;
      CumulativeNeedsItsFullOnly(Apply(dir, ops[0]), ops[1..], name);
    }
  }

  // ------------------------------------------------------------------- resolution

  /** A chain from a full backup to an archive: each archive but the first is a
      delta on the one before. */
  ghost predicate IsChain(dir: Dir, chain: seq<string>, name: string) {
    && chain != [] && chain[|chain| - 1] == name
    && (forall i :: 0 <= i < |chain| ==> chain[i] in dir)
    && dir[chain[0]].m.kind.Full?
    && (forall i :: 0 < i < |chain| ==>
          !dir[chain[i]].m.kind.Full? && dir[chain[i]].m.base != "" && dir[chain[i]].m.base == chain[i - 1])
  }

  /** On every directory, broken ones included, an archive resolves to a chain if
      and only if that chain leads to it and, from the first hop, has at most
      10001 archives. */
  lemma {:induction false} ResolvesExactly(dir: Dir, name: string, hops: nat, chain: seq<string>)
    ensures ResolveChain(dir, name, hops) == Some(chain) <==> IsChain(dir, chain, name) && hops + |chain| <= 10001
    decreases MAX_HOPS + 1 - hops
  {
    if hops <= MAX_HOPS && name in dir && !dir[name].m.kind.Full? && dir[name].m.base != "" && chain != [] {
      var older := chain[..|chain| - 1];
      ResolvesExactly(dir, dir[name].m.base, hops + 1, older);
      if IsChain(dir, older, dir[name].m.base) && chain[|chain| - 1] == name {
        assert older + [name] == chain;
        assert IsChain(dir, chain, name);
      }
      if IsChain(dir, chain, name) && |chain| > 1 {
        assert IsChain(dir, older, dir[name].m.base);
        assert older + [name] == chain;
      }
    }
    if IsChain(dir, chain, name) && dir[name].m.kind.Full? {
      assert |chain| == 1;
      assert chain == [name];
    }
  }

  // ---------------------------------------------------------------------- restore

  /** What a restore leaves at a path, readable or not when it was saved: nothing
      unless the last manifest lists it; otherwise the newest copy an archive of
      the chain stores, and where none does, whatever was there before. */
  lemma RestoredImageMeans(dir: Dir, chain: seq<string>, live: Images, p: string)
    requires chain != [] && forall i :: 0 <= i < |chain| ==> chain[i] in dir
    requires dir[chain[0]].m.kind.Full?
    ensures var r := Restore(dir, chain, live); var images := dir[chain[|chain| - 1]].m.images;
      && r.Some?
      && (p !in images ==> p !in r.value)
      && (p in images ==>
            && (forall i :: NewestStoring(dir, chain, p, i) ==> p in r.value && r.value[p] == dir[chain[i]].stored[p])
            && ((forall i :: 0 <= i < |chain| ==> p !in dir[chain[i]].stored) ==>
                  (p in r.value <==> p in live) && (p in live ==> r.value[p] == live[p])))
  {
    ExtractYieldsNewest(dir, chain, live, p);
    ExtractYieldsNewest(dir, chain, map[], p);
    ExtractOverlaysLive(dir, chain, live);
    hide Extract;
    forall i | NewestStoring(dir, chain, p, i) ensures Holds(dir, chain, p, dir[chain[i]].stored[p]) {
    }
  }

  // ---------------------------------------------------------------------- pruning

  ghost function ChainsOf(dir: Dir): set<string> {
    set name | name in dir :: dir[name].m.chain
  }

  lemma {:induction false} MembersBounded(s: seq<string>)
    ensures |set x | x in s| <= |s|
  {
    if s != [] {
      MembersBounded(s[1..]);
      var all, rest := set x | x in s, set x | x in s[1..];
      assert all == rest + {s[0]};
    }
  }

  /** Pruning leaves at most as many chains as it is to keep, besides the chain
      just written to, and deletes nothing while there are no more than that. */
  lemma PruneLeavesFewChains(dir: Dir, all: seq<string>, keep: nat, justWritten: string)
    requires IsListing(dir, all) && justWritten in dir
    ensures var left := Prune(dir, all, keep, justWritten);
      && |ChainsOf(left) - {dir[justWritten].m.chain}| <= keep
      && (|ChainsOf(dir)| <= keep ==> left == dir)
  {
    var left, ids := Prune(dir, all, keep, justWritten), ChainIds(dir, all);
    ChainIdsMembers(dir, all);
    var kept := Take(ids, keep);
    MembersBounded(kept);
    forall name | name in left ensures dir[name].m.chain in kept || dir[name].m.chain == dir[justWritten].m.chain {
      assert name in all;
    }
    assert ChainsOf(left) - {dir[justWritten].m.chain} <= set id | id in kept;
    SubsetIsSmaller(ChainsOf(left) - {dir[justWritten].m.chain}, set id | id in kept);
    if |ChainsOf(dir)| <= keep {
      forall id | id in ids ensures id in ChainsOf(dir) {
        var k :| 0 <= k < |ids| && ids[k] == id;
        var i := ChainOccurs(dir, all, k);
      }
      DistinctBounded(ids, ChainsOf(dir));
    }
  }

  /** One run with a number of chains to keep leaves at most that many besides its
      own, and deletes nothing while there are no more; without such a number, it
      deletes nothing at all. */
  lemma RunLeavesFewChains(dir: Dir, op: Op)
    requires Sound(dir) && Allowed(dir, op)
    ensures var after := Apply(dir, op);
      && op.name in after
      && (op.keep > 0 ==> |ChainsOf(after) - {after[op.name].m.chain}| <= op.keep)
      && (op.keep == 0 || |ChainsOf(Written(dir, op))| <= op.keep ==> after.Keys == dir.Keys + {op.name})
  {
    ApplyKeepsWritten(dir, op);
    PruneLeavesFewChains(Written(dir, op), op.listing, op.keep, op.name);
    hide ChainsOf, NewArchive, Prune, IsListing, Sound;
  }

  lemma SubsetIsSmaller(a: set<string>, b: set<string>)
    requires a <= b
    ensures |a| <= |b|
  {
    assert b == a + (b - a);
  }

  lemma {:induction false} DistinctBounded(ids: seq<string>, s: set<string>)
    requires (forall i, j :: 0 <= i < j < |ids| ==> ids[i] != ids[j]) && forall id :: id in ids ==> id in s
    ensures |ids| <= |s|
  {
    if ids != [] {
      assert ids[0] in s;
      forall id | id in ids[1..] ensures id in s - {ids[0]} {
        var j :| 0 <= j < |ids[1..]| && ids[1..][j] == id;
        assert ids[j + 1] == id;
      }
      DistinctBounded(ids[1..], s - {ids[0]});
    }
  }
}
