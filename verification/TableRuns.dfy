/** Whole histories of the events table: imports, edits, duplicate resolution
    and the two statements of a delete in any order. */
module TableRuns {
  import opened Options
  import opened EventTable
  import opened DuplicateFlags
  import opened EventImport
  import opened ImportLaws

  datatype Op =
    | Add(inp: EventInput, draws: Draws)
    | Edit(id: int, title: string, start: int, location: Option<int>)   // a manual edit, which rechecks the pair
    | Resolve(id: int, accept: bool)                                    // an admin's decision on a flagged pair
    | Unflag(id: int)                                                   // the clean-up before a delete
    | Delete(id: int)                                                   // the DELETE itself

  function Edited(rows: Rows, id: int, title: string, start: int, location: Option<int>): Rows {
    if id in rows
    then rows[id := rows[id].(key := rows[id].key.(title := title, start := start, location := location))]
    else rows
  }

  /** "accept" clears the pair at once, "resolved" only when it no longer collides. */
  function Resolved(rows: Rows, id: int, accept: bool): Rows {
    if id in rows && (accept || !StillCollides(rows, id)) then ClearPair(rows, id, Partner(rows, id).Or(0)) else rows
  }

  function Apply(t: Table, op: Op): Table {
    match op
    case Add(inp, draws) => Store(t, inp, draws).0
    case Edit(id, title, start, location) => t.(rows := Recheck(Edited(t.rows, id, title, start, location), id))
    case Resolve(id, accept) => t.(rows := Resolved(t.rows, id, accept))
    case Unflag(id) => t.(rows := ClearBeforeDelete(t.rows, id))
    case Delete(id) => t.(rows := DeleteRow(t.rows, id))
  }

  function ApplyAll(t: Table, ops: seq<Op>): Table
    decreases |ops|
  {
    if ops == [] then t else ApplyAll(Apply(t, ops[0]), ops[1..])
  }

  /** An administrator's decision: accepting a pair unflags the row and the
      partner that names it, whatever they look like; "resolved" does so only when
      the row has no existing partner or no longer collides with it. */
  lemma DecisionSettles(rows: Rows, id: int, accept: bool)
    requires id in rows && 0 !in rows
    ensures var r := Apply(Table(rows, 0), Resolve(id, accept)).rows; var partner := rows[id].duplicateOf.Or(0);
      if !accept && partner > 0 && partner in rows && Collide(rows[id], rows[partner]) then r == rows
      else
        && r.Keys == rows.Keys
        && r[id] == rows[id].(flagged := false, duplicateOf := None)
        && forall e :: e in rows && e != id ==>
             r[e] == if e == partner > 0 && rows[e].duplicateOf == Some(id) then Unflagged(rows[e]) else rows[e]
  {
    hide Collide;
  }

  /** A manual edit changes the title, time and venue of one row; the row stays
      flagged exactly when it was and what it now says still collides with its
      partner, and no row but a partner that names it changes. */
  lemma EditSettles(t: Table, id: int, title: string, start: int, location: Option<int>)
    requires id in t.rows && 0 !in t.rows && FlagsSound(t.rows)
    ensures var r := Apply(t, Edit(id, title, start, location)).rows; var partner := t.rows[id].duplicateOf.Or(0);
      && r.Keys == t.rows.Keys
      && r[id].key == t.rows[id].key.(title := title, start := start, location := location)
      && r[id].content == t.rows[id].content && r[id].fixed == t.rows[id].fixed
      && (r[id].flagged <==>
            t.rows[id].flagged && partner > 0 && partner in t.rows && Collide(r[id], t.rows[partner]))
      && forall e :: e in t.rows && e != id && r[e] != t.rows[e] ==>
           e == partner && t.rows[e].duplicateOf == Some(id) && r[e] == Unflagged(t.rows[e]) && !r[id].flagged
  {
    var edited := Edited(t.rows, id, title, start, location);
    RecheckSettles(edited, id);
    if edited[id].flagged { CollideIsOfKeys(edited[id], Recheck(edited, id)[id], edited, Partner(edited, id)); }
    hide Collide, Recheck;
  }

  /** The rule looks at the key columns only. */
  lemma CollideIsOfKeys(a: Event, b: Event, rows: Rows, partner: Option<int>)
    requires a.key == b.key
    ensures partner.Some? && partner.value in rows ==>
              (Collide(a, rows[partner.value]) <==> Collide(b, rows[partner.value]))
  {
  }

  lemma ClearPairKeepsConsistent(t: Table, id: int, partner: int)
    requires Consistent(t)
    ensures Consistent(t.(rows := ClearPair(t.rows, id, partner)))
  {
    ClearPairKeepsFlagsSound(t.rows, id, partner);
    forall e | e in t.rows
      ensures ClearPair(t.rows, id, partner)[e].key == t.rows[e].key
      ensures ClearPair(t.rows, id, partner)[e].fixed == t.rows[e].fixed
    {
    }
    hide ClearPair, FlagsSound;
  }

  lemma UnflagKeepsConsistent(t: Table, id: int)
    requires Consistent(t)
    ensures Consistent(t.(rows := ClearBeforeDelete(t.rows, id)))
  {
    ClearBeforeDeleteKeepsFlagsSound(t.rows, id);
    forall e | e in t.rows
      ensures ClearBeforeDelete(t.rows, id)[e].key == t.rows[e].key
      ensures ClearBeforeDelete(t.rows, id)[e].fixed == t.rows[e].fixed
    {
    }
    hide ClearBeforeDelete, FlagsSound;
  }

  lemma DeleteKeepsConsistent(t: Table, id: int)
    requires Consistent(t)
    ensures Consistent(t.(rows := DeleteRow(t.rows, id)))
  {
    var left := DeleteRow(t.rows, id);
    forall e | e in left ensures left[e].key == t.rows[e].key && left[e].fixed == t.rows[e].fixed {
    }
    assert FlagsSound(left);
    hide DeleteRow, FlagsSound;
  }

  lemma ApplyKeepsConsistent(t: Table, op: Op)
    requires Consistent(t)
    ensures Consistent(Apply(t, op)) && t.lastId <= Apply(t, op).lastId
  {
    match op
    case Add(inp, draws) => StoreKeepsConsistent(t, inp, draws);
    case Edit(id, title, start, location) =>
      var edited := t.(rows := Edited(t.rows, id, title, start, location));
      assert Consistent(edited);
      if id in t.rows { ClearPairKeepsConsistent(edited, id, Partner(edited.rows, id).Or(0)); }
    case Resolve(id, _) =>
      if id in t.rows { ClearPairKeepsConsistent(t, id, Partner(t.rows, id).Or(0)); }
    case Unflag(id) => UnflagKeepsConsistent(t, id);
    case Delete(id) => DeleteKeepsConsistent(t, id);
  }

  /** In every history, uids and short codes stay unique, ids are never reused,
      and a duplicate reference always sits on a flagged row and names another
      row that exists. */
  lemma {:induction false} HistoryKeepsConsistent(t: Table, ops: seq<Op>)
    requires Consistent(t)
    ensures Consistent(ApplyAll(t, ops)) && t.lastId <= ApplyAll(t, ops).lastId
    decreases |ops|
  {
    if ops != [] {
      ApplyKeepsConsistent(t, ops[0]);
      hide Apply, Consistent;
      HistoryKeepsConsistent(Apply(t, ops[0]), ops[1..]);
    }
  }
}
