/** Flagged pairs of possible duplicates: when two rows collide, and how the
    flags are set, rechecked, cleared and dropped. */
module DuplicateFlags {
  import opened Options
  import opened EventTable
  import opened Titles

  datatype Reason = Time | Venue | Title | SimilarTitle

  /** The columns the collision rule looks at; zero stands for NULL. */
  datatype DupEvent = DupEvent(title: string, start: int, location: int, source: int)

  function DupEventOf(e: Event): DupEvent {
    DupEvent(e.key.title, e.key.start, e.key.location.Or(0), e.key.fetchSource.Or(0))
  }

  /** Why two rows would still be treated as possible duplicates; empty when
      they start three hours or more apart. */
  function Reasons(a: DupEvent, b: DupEvent): seq<Reason> {
    if !Near(a.start, b.start) then []
    else
      [Time]
      + (if a.location > 0 && a.location == b.location then [Venue] else [])
      + (if a.title != "" && a.title == b.title then [Title]
         else if a.source > 0 && a.source == b.source && FuzzyOverlap(a.title, b.title) then [SimilarTitle]
         else [])
  }

  /** Two rows collide when more than the time speaks for it. */
  predicate Collide(a: Event, b: Event) {
    |Reasons(DupEventOf(a), DupEventOf(b))| > 1
  }

  /** The rule in one sentence, and its symmetry: both rows give the same
      reasons, so it does not matter which row of a pair is checked. */
  lemma CollideMeans(a: Event, b: Event)
    ensures Reasons(DupEventOf(a), DupEventOf(b)) == Reasons(DupEventOf(b), DupEventOf(a))
    ensures Collide(a, b) <==> Collide(b, a)
    ensures Collide(a, b) <==> (
              && Near(a.key.start, b.key.start)
              && ( || (a.key.location.Or(0) > 0 && a.key.location == b.key.location)
                   || (a.key.title != "" && a.key.title == b.key.title)
                   || (a.key.fetchSource.Or(0) > 0 && a.key.fetchSource == b.key.fetchSource
                       && FuzzyOverlap(a.key.title, b.key.title))))
  {
    OverlapLaws(a.key.title, b.key.title);
  }

  // --------------------------------------------------------------- row updates

  /** UPDATE events SET needs_duplicate_review = 1, duplicate_of_id = ? WHERE id = ?;
      the foreign key refuses a partner that does not exist. */
  function SetFlag(rows: Rows, id: int, partner: int): Rows {
    if id in rows && partner in rows
    then rows[id := rows[id].(flagged := true, duplicateOf := Some(partner))]
    else rows
  }

  function FlagPair(rows: Rows, newId: int, candidate: int): Rows {
    SetFlag(SetFlag(rows, newId, candidate), candidate, newId)
  }

  function Unflagged(e: Event): Event {
    e.(flagged := false, duplicateOf := None)
  }

  /** Clear id, and its partner only while that one is flagged against id. */
  function ClearPair(rows: Rows, id: int, partner: int): Rows {
    map e | e in rows ::
      if e == id || (e == partner && rows[e].duplicateOf == Some(id)) then Unflagged(rows[e]) else rows[e]
  }

  /** The partner a row names, when it names an existing one. */
  function Partner(rows: Rows, id: int): Option<int>
    requires id in rows
  {
    if rows[id].duplicateOf.Or(0) > 0 && rows[id].duplicateOf.value in rows then rows[id].duplicateOf else None
  }

  predicate StillCollides(rows: Rows, id: int)
    requires id in rows
  {
    Partner(rows, id).Some? && Collide(rows[id], rows[Partner(rows, id).value])
  }

  function Recheck(rows: Rows, id: int): Rows {
    if id in rows && rows[id].flagged && !StillCollides(rows, id)
    then ClearPair(rows, id, Partner(rows, id).Or(0))
    else rows
  }

  /** Some flagged row other than `except` names id as its partner. */
  predicate PointedAt(rows: Rows, id: int, except: int) {
    exists z :: z in rows && z != except && rows[z].flagged && rows[z].duplicateOf == Some(id)
  }

  /** Clear the flags of rows that only the deleted row kept flagged. */
  function ClearBeforeDelete(rows: Rows, id: int): Rows {
    map e | e in rows ::
      if rows[e].duplicateOf == Some(id) && !PointedAt(rows, e, id) then Unflagged(rows[e]) else rows[e]
  }

  /** DELETE with ON DELETE SET NULL on duplicate_of_id. */
  function DeleteRow(rows: Rows, id: int): Rows {
    map e | e in rows && e != id ::
      if rows[e].duplicateOf == Some(id) then rows[e].(duplicateOf := None) else rows[e]
  }

  function HardDelete(rows: Rows, id: int): Rows {
    DeleteRow(ClearBeforeDelete(rows, id), id)
  }

  /** What the duplicate-check page shows for a row; partner is 0 when there is none. */
  datatype DuplicateCheck = DuplicateCheck(flagged: bool, partner: int, collides: bool, reasons: seq<Reason>,
      others: seq<int>)

  const OTHERS_LIMIT := 20

  /** Rows that might collide with the checked one, besides its partner. */
  function Prefilter(rows: Rows, id: int): Candidates
    requires id in rows
  {
    var e := DupEventOf(rows[id]);
    map o | o in rows && o != id && o != rows[id].duplicateOf.Or(0) && Near(rows[o].key.start, e.start)
            && (rows[o].key.location == Some(e.location) || rows[o].key.title == e.title
                || (rows[o].key.fetchSource == Some(e.source) && e.source > 0)) :: 0
  }

  /** Query results in the order they are returned. */
  function InOrder(c: Candidates): (ids: seq<int>)
    ensures |ids| == |c|
    ensures forall i :: 0 <= i < |ids| ==> ids[i] in c
    ensures forall id :: id in c ==> id in ids
    decreases |c|
  {
    if c == map[] then []
    else
      var id := First(c);
      assert c.Keys == (c - {id}).Keys + {id};
      [id] + InOrder(c - {id})
  }

  /** What the query for other conflicts returns, at most twenty rows. */
  function NearbyIds(rows: Rows, id: int): (ids: seq<int>)
    requires id in rows
    ensures forall i :: 0 <= i < |ids| ==> ids[i] in rows
  {
    var ids := InOrder(Prefilter(rows, id));
    if |ids| <= OTHERS_LIMIT then ids else ids[..OTHERS_LIMIT]
  }

  /** Those of the rows that collide with the checked one. */
  function Colliding(rows: Rows, id: int, ids: seq<int>): (others: seq<int>)
    requires id in rows && forall i :: 0 <= i < |ids| ==> ids[i] in rows
    ensures forall o :: o in others <==> o in ids && o in rows && Collide(rows[id], rows[o])
  {
    if ids == [] then []
    else (if Collide(rows[id], rows[ids[0]]) then [ids[0]] else []) + Colliding(rows, id, ids[1..])
  }

  function Check(rows: Rows, id: int): DuplicateCheck
    requires id in rows
  {
    var p := Partner(rows, id);
    DuplicateCheck(
      rows[id].flagged, p.Or(0), StillCollides(rows, id),
      if p.Some? then Reasons(DupEventOf(rows[id]), DupEventOf(rows[p.value])) else [],
      Colliding(rows, id, NearbyIds(rows, id)))
  }

  // ---------------------------------------------------------------- properties

  /** What each reason stands for, and that they are listed in this order, each
      once. A similar title is only mentioned when the titles are not the same. */
  lemma ReasonsMean(a: Event, b: Event)
    ensures var r := Reasons(DupEventOf(a), DupEventOf(b)); var near := -10800 < a.key.start - b.key.start < 10800;
      && (Time in r <==> near)
      && (Venue in r <==> near && a.key.location.Or(0) > 0 && b.key.location == a.key.location)
      && (Title in r <==> near && a.key.title != "" && b.key.title == a.key.title)
      && (SimilarTitle in r <==>
            && near && Title !in r && a.key.fetchSource.Or(0) > 0 && b.key.fetchSource == a.key.fetchSource
            && FuzzyOverlap(a.key.title, b.key.title))
      && (r == [] || r == [Time] || (|r| == 2 && r[0] == Time && r[1] != Time)
          || (|r| == 3 && r[0] == Time && r[1] == Venue && r[2] in {Title, SimilarTitle}))
  {
    hide FuzzyOverlap;
  }

  /** The rows near the checked one that share its venue, title or feed, other
      than its partner: those the query for other conflicts filters. */
  function Neighbours(rows: Rows, id: int): set<int>
    requires id in rows
  {
    var e := rows[id].key;
    set o | o in rows && o != id && rows[id].duplicateOf != Some(o) && -10800 < rows[o].key.start - e.start < 10800
            && (rows[o].key.location == Some(e.location.Or(0)) || rows[o].key.title == e.title
                || (e.fetchSource.Or(0) > 0 && rows[o].key.fetchSource == e.fetchSource))
  }

  lemma PrefilterIsNeighbours(rows: Rows, id: int)
    requires id in rows && 0 !in rows
    ensures Prefilter(rows, id).Keys == Neighbours(rows, id)
    ensures |Prefilter(rows, id)| == |Neighbours(rows, id)|
  {
    assert |Prefilter(rows, id)| == |Prefilter(rows, id).Keys|;
  }

  /** The list of other conflicts has at most twenty rows and only ones that
      collide with the checked row, and its partner is not among them. Unless more
      than twenty rows pass the query, it misses no row that collides. */
  lemma CheckListsCollisions(rows: Rows, id: int, other: int)
    requires id in rows && 0 !in rows && other in rows
    ensures var others := Check(rows, id).others;
      && |others| <= 20
      && (other in others ==> other != id && rows[id].duplicateOf != Some(other) && Collide(rows[id], rows[other]))
      && (|Neighbours(rows, id)| <= 20 && other != id && rows[id].duplicateOf != Some(other) ==>
            (other in others <==> Collide(rows[id], rows[other])))
  {
    CollideMeans(rows[id], rows[other]);
    PrefilterIsNeighbours(rows, id);
    CollidingIsShorter(rows, id, NearbyIds(rows, id));
    assert other != id && rows[id].duplicateOf != Some(other) && Collide(rows[id], rows[other]) ==>
        other in Neighbours(rows, id);
    hide Collide, Prefilter, Reasons, Neighbours;
  }

  lemma {:induction false} CollidingIsShorter(rows: Rows, id: int, ids: seq<int>)
    requires id in rows && forall i :: 0 <= i < |ids| ==> ids[i] in rows
    ensures |Colliding(rows, id, ids)| <= |ids|
  {
    hide Collide;
    if ids != [] { CollidingIsShorter(rows, id, ids[1..]); }
  }

  /** What the check says about the row itself: the partner it names, if there is
      one, and whether and why the two collide. */
  lemma CheckMeans(rows: Rows, id: int)
    requires id in rows && 0 !in rows
    ensures var c := Check(rows, id);
      && c.flagged == rows[id].flagged
      && (if c.partner == 0 then
            && !c.collides && c.reasons == []
            && (rows[id].duplicateOf.Some? ==> rows[id].duplicateOf.value <= 0 || rows[id].duplicateOf.value !in rows)
          else
            && c.partner > 0 && c.partner in rows && rows[id].duplicateOf == Some(c.partner)
            && c.reasons == Reasons(DupEventOf(rows[id]), DupEventOf(rows[c.partner]))
            && (c.collides <==> Collide(rows[id], rows[c.partner])))
  {
    hide Reasons, Collide, Colliding, NearbyIds;
  }

  /** Flagging two different rows leaves them naming each other, and no other row changes. */
  lemma FlagPairLinksBoth(rows: Rows, a: int, b: int)
    requires a in rows && b in rows && a != b
    ensures var r := FlagPair(rows, a, b);
      && r.Keys == rows.Keys
      && r[a] == rows[a].(flagged := true, duplicateOf := Some(b))
      && r[b] == rows[b].(flagged := true, duplicateOf := Some(a))
      && forall id :: id in rows && id != a && id != b ==> r[id] == rows[id]
    ensures FlagsSound(rows) ==> FlagsSound(FlagPair(rows, a, b))
  {
  }

  /** Clearing keeps every duplicate reference on a flagged row and pointing at another existing row. */
  lemma ClearPairKeepsFlagsSound(rows: Rows, id: int, partner: int)
    requires FlagsSound(rows)
    ensures FlagsSound(ClearPair(rows, id, partner))
    ensures ClearPair(rows, id, partner).Keys == rows.Keys
    ensures id in rows ==> !ClearPair(rows, id, partner)[id].flagged
  {
  }

  /** After a recheck the row is flagged exactly when it was flagged and its
      partner exists and still collides; and a recheck is idempotent. */
  lemma RecheckSettles(rows: Rows, id: int)
    requires id in rows && 0 !in rows
    ensures var r := Recheck(rows, id);
      && r.Keys == rows.Keys
      && (r[id].flagged <==> rows[id].flagged && StillCollides(rows, id))
      && (r[id].flagged ==> r == rows)
      && Recheck(r, id) == r
      && (FlagsSound(rows) ==> FlagsSound(r))
      && forall e :: e in rows && e != id && r[e] != rows[e] ==>
           rows[id].duplicateOf == Some(e) && rows[e].duplicateOf == Some(id) && r[e] == Unflagged(rows[e])
  {
  }

  /** Two rows flagged against each other: rechecking one changes nothing while
      they collide, and drops both flags once they do not. */
  lemma RecheckOfLinkedPair(rows: Rows, a: int, b: int)
    requires a in rows && b in rows && a != b && b > 0
    requires rows[a].flagged && rows[a].duplicateOf == Some(b) && rows[b].duplicateOf == Some(a)
    ensures Collide(rows[a], rows[b]) ==> Recheck(rows, a) == rows
    ensures !Collide(rows[a], rows[b]) ==> Recheck(rows, a) == rows[a := Unflagged(rows[a])][b := Unflagged(rows[b])]
  {
    hide Collide;
  }

  /** After a delete, a row that pointed at the deleted one is flagged exactly
      when it was and another flagged row still points at it; its own
      reference is gone; all other rows are untouched. */
  lemma DeleteSettles(rows: Rows, id: int)
    requires FlagsSound(rows) && id in rows
    ensures var r := HardDelete(rows, id);
      && r.Keys == rows.Keys - {id}
      && FlagsSound(r)
      && forall e :: e in r ==>
           if rows[e].duplicateOf == Some(id) then
             && r[e] == rows[e].(flagged := PointedAt(r, e, e), duplicateOf := None)
           else r[e] == rows[e]
  {
    var r := HardDelete(rows, id);
    forall e | e in r && rows[e].duplicateOf == Some(id)
      ensures PointedAt(rows, e, id) <==> PointedAt(r, e, e)
    {
      if PointedAt(rows, e, id) {
        var z :| z in rows && z != id && rows[z].flagged && rows[z].duplicateOf == Some(e);
        assert z in r && z != e && r[z] == rows[z];
      }
      if PointedAt(r, e, e) {
        var z :| z in r && z != e && r[z].flagged && r[z].duplicateOf == Some(e);
        assert rows[z].duplicateOf == Some(e) && rows[z].flagged;
      }
    }
  }

  /** Flagged for review, but with no partner on either side: nothing an admin
      could compare the row with. */
  predicate Stranded(rows: Rows, id: int) {
    id in rows && rows[id].flagged && rows[id].duplicateOf.None? && !PointedAt(rows, id, id)
  }

  /** The clean-up before a delete looks only at rows that point at the deleted
      row. A row that had already lost its own reference, and that only the
      deleted row still pointed at, is left stranded; no other row is. */
  lemma DeleteStrandsExactly(rows: Rows, id: int, e: int)
    requires FlagsSound(rows) && id in rows && e in rows && e != id && !Stranded(rows, e)
    ensures Stranded(HardDelete(rows, id), e)
            <==> rows[e].flagged && rows[e].duplicateOf.None? && !PointedAt(rows, e, id)
  {
    var r := HardDelete(rows, id);
    DeleteSettles(rows, id);
    if rows[e].duplicateOf != Some(id) {
      if PointedAt(rows, e, id) {
        var z :| z in rows && z != id && rows[z].flagged && rows[z].duplicateOf == Some(e);
        assert z in r && z != e && r[z] == rows[z];
      }
      if PointedAt(r, e, e) {
        var z :| z in r && z != e && r[z].flagged && r[z].duplicateOf == Some(e);
        assert rows[z].duplicateOf == Some(e) && rows[z].flagged;
      }
    }
  }

  /** The clean-up and the DELETE are two statements, and other requests may write
      in between. Whatever they wrote, the DELETE strands a row exactly when the
      row is flagged, names the deleted row or none, and only the deleted row
      points at it. */
  lemma DeleteStatementStrandsExactly(rows: Rows, id: int, e: int)
    requires FlagsSound(rows) && id in rows && e in rows && e != id && !Stranded(rows, e)
    ensures FlagsSound(DeleteRow(rows, id))
    ensures Stranded(DeleteRow(rows, id), e) <==>
            && rows[e].flagged && (rows[e].duplicateOf.None? || rows[e].duplicateOf == Some(id))
            && !PointedAt(rows, e, id)
  {
    var r := DeleteRow(rows, id);
    if PointedAt(rows, e, id) {
      var z :| z in rows && z != id && rows[z].flagged && rows[z].duplicateOf == Some(e);
      assert z in r && r[z].flagged && r[z].duplicateOf == Some(e) && z != e;
    }
    if PointedAt(r, e, e) {
      var z :| z in r && z != e && r[z].flagged && r[z].duplicateOf == Some(e);
      assert rows[z].duplicateOf == Some(e) && rows[z].flagged;
    }
  }

  /** An import between the two statements: it flags row 2 against row 1, which
      has been cleaned up and is about to be deleted. */
  lemma ImportDuringDeleteStrands(e: Event)
    requires !e.flagged && e.duplicateOf.None?
    ensures var rows: Rows := map[1 := e, 2 := e];
      var flagged := FlagPair(ClearBeforeDelete(rows, 1), 2, 1);
      !Stranded(flagged, 2) && Stranded(DeleteRow(flagged, 1), 2)
  {
    var rows: Rows := map[1 := e, 2 := e];
    assert ClearBeforeDelete(rows, 1) == rows;
    FlagPairLinksBoth(rows, 2, 1);
    var flagged := FlagPair(rows, 2, 1);
    assert flagged.Keys == {1, 2};
    DeleteStatementStrandsExactly(flagged, 1, 2);
  }

  /** Clearing flags before a delete keeps the graph sound and only clears. */
  lemma ClearBeforeDeleteKeepsFlagsSound(rows: Rows, id: int)
    requires FlagsSound(rows)
    ensures FlagsSound(ClearBeforeDelete(rows, id)) && ClearBeforeDelete(rows, id).Keys == rows.Keys
    ensures forall e :: e in rows ==>
              ClearBeforeDelete(rows, id)[e] == rows[e] || ClearBeforeDelete(rows, id)[e] == Unflagged(rows[e])
  {
  }

  /** The promise that flags disappear with their last partner is broken by a
      concrete run: flag 2 against 1, then 3 against 1, delete 3, delete 2.
      Row 1 stays flagged with nothing left to compare. */
  lemma DeletingTwoPartnersStrands(e: Event)
    requires !e.flagged && e.duplicateOf.None?
    ensures var rows := FlagPair(FlagPair(map[1 := e, 2 := e, 3 := e], 2, 1), 3, 1);
            Stranded(HardDelete(HardDelete(rows, 3), 2), 1)
  {
    hide FlagPair, HardDelete, SetFlag;
    var start: Rows := map[1 := e, 2 := e, 3 := e];
    var once := FlagPair(start, 2, 1);
    FlagPairLinksBoth(start, 2, 1);
    var rows := FlagPair(once, 3, 1);
    FlagPairLinksBoth(once, 3, 1);
    assert rows[1].duplicateOf == Some(3) && rows[2].duplicateOf == Some(1) && rows[2].flagged;
    DeleteSettles(rows, 3);
    var left := HardDelete(rows, 3);
    assert left[2] == rows[2] && PointedAt(left, 1, 1);
    assert left[1].flagged && left[1].duplicateOf.None?;
    assert !PointedAt(left, 1, 2);
    DeleteStrandsExactly(left, 2, 1);
  }
}
