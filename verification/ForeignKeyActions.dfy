/** What referential actions do to the rows. */
module ForeignKeyActions {
  import opened Values
  import opened ForeignKeys

  // ---------------------------------------------------------------- what is left alone

  /** Rows to keep, by id, and values that enforcement may come to. */
  datatype Region = Region(keep: (Table, int) -> bool, hot: (Table, Column, Value) -> bool)

  function KeptRows(rows: seq<Row>, t: Table, region: Region): seq<Row> {
    if rows == [] then []
    else (if region.keep(t, rows[0].id) then [rows[0]] else []) + KeptRows(rows[1..], t, region)
  }

  /** No kept row references a hot value. */
  ghost predicate Cold(db: Db, links: seq<Link>, region: Region) {
    forall l, r, v :: (l in links && r in Rows(db, l.table) && region.keep(l.table, r.id)
      && region.hot(l.refTable, l.refCol, v)) ==> !Eq(Get(r, l.col), v)
  }

  /** A hot value is hot in the columns that reference it. */
  ghost predicate Passes(links: seq<Link>, region: Region) {
    forall l, v, u :: l in links && region.hot(l.refTable, l.refCol, v) && Eq(u, v) ==> region.hot(l.table, l.col, u)
  }

  ghost predicate HotRow(r: Row, t: Table, links: seq<Link>, patch: Option<Patch>, region: Region) {
    forall l :: l in links && l.refTable == t && Touches(patch, l.refCol) ==>
      Get(r, l.refCol).Null? || region.hot(t, l.refCol, Get(r, l.refCol))
  }

  /** Every value of a row that may be deleted is hot. */
  ghost predicate Sinks(db: Db, links: seq<Link>, region: Region) {
    forall t, r :: r in Rows(db, t) && !region.keep(t, r.id) ==> HotRow(r, t, links, None, region)
  }

  ghost predicate SameKept(a: Db, b: Db, region: Region) {
    forall t :: KeptRows(Rows(a, t), t, region) == KeptRows(Rows(b, t), t, region)
  }

  /** Kept rows stay as they are, in the same order; and after deletions the rest is still hot. */
  ghost predicate Spares(db: Db, after: Db, links: seq<Link>, region: Region, deletes: bool) {
    && SameKept(db, after, region) && Cold(after, links, region)
    && (deletes ==> Sinks(after, links, region))
  }

  /** The hypotheses under which enforcement spares the region. */
  ghost predicate Guarded(w: World, db: Db, region: Region, patch: Option<Patch>, deletes: bool) {
    && Known(w.schema, db) && FetchesOnly(w)
    && (forall l :: l in Links(w.schema) ==> l.refCol != "updated_at" && l.col !in PSEUDO)
    && Cold(db, Links(w.schema), region) && Passes(Links(w.schema), region)
    && (patch.None? ==> deletes)
    && (deletes ==> Sinks(db, Links(w.schema), region) && Clears(patch))
  }

  lemma {:induction false} KeptRowsAre(rows: seq<Row>, t: Table, region: Region)
    ensures forall r :: r in KeptRows(rows, t, region) <==> r in rows && region.keep(t, r.id)
  {
    if rows != [] {
      KeptRowsAre(rows[1..], t, region);
    }
  }

  lemma ColdStays(db: Db, after: Db, links: seq<Link>, region: Region)
    requires Cold(db, links, region) && SameKept(db, after, region)
    ensures Cold(after, links, region)
  {
    forall l, r, v | l in links && r in Rows(after, l.table) && region.keep(l.table, r.id)
      && region.hot(l.refTable, l.refCol, v)
      ensures !Eq(Get(r, l.col), v)
    {
      KeptRowsAre(Rows(db, l.table), l.table, region);
      KeptRowsAre(Rows(after, l.table), l.table, region);
      assert r in KeptRows(Rows(after, l.table), l.table, region);
    }
  }

  lemma {:induction false} KeptByPatch(rows: seq<Row>, t: Table, region: Region, f: Filter, patch: Patch, now: int)
    requires forall r :: r in rows && Selects(f, r) ==> !region.keep(t, r.id)
    ensures KeptRows(Patched(rows, f, patch, now), t, region) == KeptRows(rows, t, region)
  {
    if rows != [] {
      KeptByPatch(rows[1..], t, region, f, patch, now);
      assert Patched(rows, f, patch, now)[1..] == Patched(rows[1..], f, patch, now);
    }
  }

  lemma {:induction false} KeptByDelete(rows: seq<Row>, t: Table, region: Region, f: Filter)
    requires forall r :: r in rows && Selects(f, r) ==> !region.keep(t, r.id)
    ensures KeptRows(Reject(rows, f), t, region) == KeptRows(rows, t, region)
  {
    if rows != [] {
      KeptByDelete(rows[1..], t, region, f);
      if Selects(f, rows[0]) {
        assert Reject(rows, f) == Reject(rows[1..], f);
      } else {
        assert Reject(rows, f) == [rows[0]] + Reject(rows[1..], f);
      }
    }
  }

  lemma PatchedStaysHot(r: Row, t: Table, links: seq<Link>, region: Region, patch: Patch, now: int)
    requires HotRow(r, t, links, None, region) && Clears(Some(patch))
    requires forall l :: l in links ==> l.refCol != "updated_at"
    ensures HotRow(PatchRow(r, patch, now), t, links, None, region)
  {
  }

  /** A write to rows outside the region that gives them no value but NULL while anything is deleted. */
  lemma {:induction false} PatchSpares(w: World, db: Db, t: Table, region: Region, f: Filter, patch: Patch,
                                       deletes: bool)
    requires t in db && Guarded(w, db, region, Some(patch), deletes)
    requires forall r :: r in db[t] && Selects(f, r) ==> !region.keep(t, r.id)
    ensures Spares(db, db[t := Patched(db[t], f, patch, w.now)], Links(w.schema), region, deletes)
  {
    hide Cold, Passes, HotRow, Selects, Links;
    var links, after := Links(w.schema), db[t := Patched(db[t], f, patch, w.now)];
    KeptByPatch(db[t], t, region, f, patch, w.now);
    ColdStays(db, after, links, region);
    if deletes {
      forall u, r | r in Rows(after, u) && !region.keep(u, r.id)
        ensures HotRow(r, u, links, None, region)
      {
        if u == t {
          var i :| 0 <= i < |after[t]| && after[t][i] == r;
          assert db[t][i] in Rows(db, t);
          PatchedStaysHot(db[t][i], t, links, region, patch, w.now);
        } else {
          assert r in Rows(db, u);
        }
      }
    }
  }

  lemma DeleteSpares(w: World, db: Db, t: Table, region: Region, f: Filter)
    requires t in db && Guarded(w, db, region, None, true)
    requires forall r :: r in db[t] && Selects(f, r) ==> !region.keep(t, r.id)
    ensures Spares(db, db[t := Reject(db[t], f)], Links(w.schema), region, true)
  {
    hide Cold, Passes, HotRow;
    var links, after := Links(w.schema), db[t := Reject(db[t], f)];
    KeptByDelete(db[t], t, region, f);
    ColdStays(db, after, links, region);
    forall u, r | r in Rows(after, u) && !region.keep(u, r.id)
      ensures HotRow(r, u, links, None, region)
    {
      assert r in Rows(db, u);
    }
  }

  lemma SparesThenSpares(a: Db, b: Db, c: Db, links: seq<Link>, region: Region, deletes: bool)
    requires Spares(a, b, links, region, deletes) && Spares(b, c, links, region, deletes)
    ensures Spares(a, c, links, region, deletes)
  {
    hide Cold, Sinks;
  }

  lemma StillGuarded(w: World, db: Db, after: Db, region: Region, patch: Option<Patch>, deletes: bool)
    requires Guarded(w, db, region, patch, deletes) && Spares(db, after, Links(w.schema), region, deletes)
    requires after.Keys == db.Keys
    ensures Guarded(w, after, region, patch, deletes)
  {
  }

  lemma SparesNothing(w: World, db: Db, region: Region, patch: Option<Patch>, deletes: bool)
    requires Guarded(w, db, region, patch, deletes)
    ensures Spares(db, db, Links(w.schema), region, deletes)
  {
  }

  lemma {:induction false} SetOneSpares(w: World, db: Db, l: Link, v: Value, newV: Value, depth: nat,
                                        region: Region, deletes: bool)
    requires l in Links(w.schema) && depth <= FK_MAX_CASCADE_DEPTH + 1
    requires Guarded(w, db, region, Some(map[l.col := newV]), deletes) && region.hot(l.refTable, l.refCol, v)
    ensures Spares(db, SetOne(w, db, l, v, newV, depth).db, Links(w.schema), region, deletes)
    decreases FK_MAX_CASCADE_DEPTH + 1 - depth, 5, 0
  {
    hide Cold, Passes, Sinks, SameKept, Enforced, Patched, Links;
    var one, f := map[l.col := newV], ColumnIs(l.col, v);
    SparesNothing(w, db, region, Some(one), deletes);
    if depth <= FK_MAX_CASCADE_DEPTH {
      var affected := w.fetch(l.table, db[l.table], f);
      HotChildren(w, db, l, v, region);
      EnforcedSpares(w, db, l.table, affected, Some(one), depth, region, deletes);
      var below := Enforced(w, db, l.table, affected, Some(one), depth);
      StillGuarded(w, db, below.db, region, Some(one), deletes);
      if below.ok {
        HotChildren(w, below.db, l, v, region);
        PatchSpares(w, below.db, l.table, region, f, one, deletes);
        SparesThenSpares(db, below.db, below.db[l.table := Patched(below.db[l.table], f, one, w.now)],
                         Links(w.schema), region, deletes);
      }
    }
  }

  /** Rows that reference a hot value are not kept, and what they reference it by is hot. */
  lemma HotChildren(w: World, db: Db, l: Link, v: Value, region: Region)
    requires l in Links(w.schema) && l.table in db && region.hot(l.refTable, l.refCol, v)
    requires Cold(db, Links(w.schema), region) && Passes(Links(w.schema), region)
    ensures forall r :: r in db[l.table] && Eq(Get(r, l.col), v) ==>
      !region.keep(l.table, r.id) && region.hot(l.table, l.col, Get(r, l.col))
  {
    assert Rows(db, l.table) == db[l.table];
  }

  lemma {:induction false} OneSpares(w: World, db: Db, l: Link, v: Value, patch: Option<Patch>, depth: nat,
                                     region: Region, deletes: bool)
    requires l in Links(w.schema) && depth <= FK_MAX_CASCADE_DEPTH && Touches(patch, l.refCol)
    requires Guarded(w, db, region, patch, deletes) && region.hot(l.refTable, l.refCol, v)
    ensures Spares(db, One(w, db, l, v, patch, depth).db, Links(w.schema), region, deletes)
    decreases FK_MAX_CASCADE_DEPTH + 1 - depth, 0, 0
  {
    hide Cold, Passes, Sinks, SameKept, Enforced, SetOne, Links;
    var f, action := ColumnIs(l.col, v), ActionOf(l, patch);
    SparesNothing(w, db, region, patch, deletes);
    if action == SetNull {
      SetOneSpares(w, db, l, v, Null, depth + 1, region, deletes);
    } else if action == Cascade && patch.Some? {
      SetOneSpares(w, db, l, v, NewOf(patch, l.refCol), depth + 1, region, deletes);
    } else if action == Cascade {
      var affected := w.fetch(l.table, db[l.table], f);
      HotChildren(w, db, l, v, region);
      assert Sinks(db, Links(w.schema), region) ==>
          forall r :: r in affected ==> HotRow(r, l.table, Links(w.schema), None, region) by {
        SinksHere(db, Links(w.schema), region, l.table);
      }
      EnforcedSpares(w, db, l.table, affected, None, depth + 1, region, deletes);
      var below := Enforced(w, db, l.table, affected, None, depth + 1);
      StillGuarded(w, db, below.db, region, None, deletes);
      if below.ok {
        HotChildren(w, below.db, l, v, region);
        DeleteSpares(w, below.db, l.table, region, f);
        SparesThenSpares(db, below.db, below.db[l.table := Reject(below.db[l.table], f)],
                         Links(w.schema), region, deletes);
      }
    }
  }

  lemma SinksHere(db: Db, links: seq<Link>, region: Region, t: Table)
    requires t in db
    ensures Sinks(db, links, region) ==>
      forall r :: r in db[t] && !region.keep(t, r.id) ==> HotRow(r, t, links, None, region)
  {
    assert Rows(db, t) == db[t];
  }

  lemma {:induction false} EachSpares(w: World, db: Db, refs: seq<Link>, v: Value, patch: Option<Patch>, depth: nat,
                                      region: Region, deletes: bool)
    requires depth <= FK_MAX_CASCADE_DEPTH && Guarded(w, db, region, patch, deletes)
    requires forall l :: l in refs ==>
      l in Links(w.schema) && Touches(patch, l.refCol) && region.hot(l.refTable, l.refCol, v)
    ensures Spares(db, Each(w, db, refs, v, patch, depth).db, Links(w.schema), region, deletes)
    decreases FK_MAX_CASCADE_DEPTH + 1 - depth, 1, |refs|
  {
    hide Guarded, Spares, One, Links;
    SparesNothing(w, db, region, patch, deletes);
    if refs != [] {
      GuardedKnown(w, db, region, patch, deletes);
      OneSpares(w, db, refs[0], v, patch, depth, region, deletes);
      var first := One(w, db, refs[0], v, patch, depth);
      if first.ok {
        StillGuarded(w, db, first.db, region, patch, deletes);
        EachSpares(w, first.db, refs[1..], v, patch, depth, region, deletes);
        SparesThenSpares(db, first.db, Each(w, first.db, refs[1..], v, patch, depth).db, Links(w.schema), region,
                         deletes);
      }
    }
  }

  lemma GuardedKnown(w: World, db: Db, region: Region, patch: Option<Patch>, deletes: bool)
    requires Guarded(w, db, region, patch, deletes)
    ensures Known(w.schema, db)
  {
  }

  lemma {:induction false} EachRowSpares(w: World, db: Db, refs: seq<Link>, t: Table, c: Column, affected: seq<Row>,
                                         patch: Option<Patch>, depth: nat, region: Region, deletes: bool)
    requires depth <= FK_MAX_CASCADE_DEPTH && Guarded(w, db, region, patch, deletes)
    requires forall l :: l in refs ==> l in Links(w.schema) && l.refTable == t && l.refCol == c && Touches(patch, c)
    requires forall r :: r in affected ==> HotRow(r, t, Links(w.schema), patch, region)
    ensures Spares(db, EachRow(w, db, refs, c, affected, patch, depth).db, Links(w.schema), region, deletes)
    decreases FK_MAX_CASCADE_DEPTH + 1 - depth, 2, |affected|
  {
    hide Guarded, Spares, Each, Links;
    SparesNothing(w, db, region, patch, deletes);
    if affected != [] {
      GuardedKnown(w, db, region, patch, deletes);
      var v := Get(affected[0], c);
      assert HotRow(affected[0], t, Links(w.schema), patch, region);
      if !v.Null? {
        EachSpares(w, db, refs, v, patch, depth, region, deletes);
      }
      var first := if v.Null? then Result(true, db) else Each(w, db, refs, v, patch, depth);
      if first.ok {
        StillGuarded(w, db, first.db, region, patch, deletes);
        EachRowSpares(w, first.db, refs, t, c, affected[1..], patch, depth, region, deletes);
        SparesThenSpares(db, first.db, EachRow(w, first.db, refs, c, affected[1..], patch, depth).db,
                         Links(w.schema), region, deletes);
      }
    }
  }

  lemma {:induction false} EachColumnSpares(w: World, db: Db, t: Table, cols: seq<Column>, affected: seq<Row>,
                                            patch: Option<Patch>, depth: nat, region: Region, deletes: bool)
    requires depth <= FK_MAX_CASCADE_DEPTH && Guarded(w, db, region, patch, deletes)
    requires forall r :: r in affected ==> HotRow(r, t, Links(w.schema), patch, region)
    ensures Spares(db, EachColumn(w, db, t, cols, affected, patch, depth).db, Links(w.schema), region, deletes)
    decreases FK_MAX_CASCADE_DEPTH + 1 - depth, 3, |cols|
  {
    hide Guarded, Spares, EachRow, Links, HotRow, Found;
    SparesNothing(w, db, region, patch, deletes);
    if cols != [] {
      GuardedKnown(w, db, region, patch, deletes);
      var c := cols[0];
      var refs := Found(Links(w.schema), t, c);
      if Touches(patch, c) {
        EachRowSpares(w, db, refs, t, c, affected, patch, depth, region, deletes);
      }
      var first := if Touches(patch, c) then EachRow(w, db, refs, c, affected, patch, depth) else Result(true, db);
      if first.ok {
        StillGuarded(w, db, first.db, region, patch, deletes);
        EachColumnSpares(w, first.db, t, cols[1..], affected, patch, depth, region, deletes);
        SparesThenSpares(db, first.db, EachColumn(w, first.db, t, cols[1..], affected, patch, depth).db,
                         Links(w.schema), region, deletes);
      }
    }
  }

  /** On any schema and whatever the status: enforcement that starts from hot values leaves the region alone. */
  lemma {:induction false} EnforcedSpares(w: World, db: Db, t: Table, affected: seq<Row>, patch: Option<Patch>,
                                          depth: nat, region: Region, deletes: bool)
    requires depth <= FK_MAX_CASCADE_DEPTH + 1 && Guarded(w, db, region, patch, deletes)
    requires forall r :: r in affected ==> HotRow(r, t, Links(w.schema), patch, region)
    ensures Spares(db, Enforced(w, db, t, affected, patch, depth).db, Links(w.schema), region, deletes)
    decreases FK_MAX_CASCADE_DEPTH + 1 - depth, 4, 0
  {
    hide Guarded, Spares, EachColumn, HotRow, EnforcedColumns;
    SparesNothing(w, db, region, patch, deletes);
    if depth <= FK_MAX_CASCADE_DEPTH {
      EachColumnSpares(w, db, t, EnforcedColumns(w.schema, t), affected, patch, depth, region, deletes);
    }
  }

  // The least region: what a DELETE or UPDATE can reach.

  /** A value enforcement can come to: one of an affected row, one that references a value reached, or, while rows
      are deleted, any value of a row that references one. */
  least predicate Reached(db: Db, links: seq<Link>, t: Table, affected: seq<Row>, patch: Option<Patch>,
                          u: Table, c: Column, v: Value)
  {
    || (u == t && Touches(patch, c) && exists p :: p in affected && v == Get(p, c) && !v.Null?)
    || (exists l, x :: l in links && l.table == u && l.col == c && Eq(v, x)
          && Reached(db, links, t, affected, patch, l.refTable, l.refCol, x))
    || (patch.None? && !v.Null?
        && exists l, x, r :: l in links && l.table == u && r in Rows(db, u) && Eq(Get(r, l.col), x) && v == Get(r, c)
             && Reached(db, links, t, affected, patch, l.refTable, l.refCol, x))
  }

  /** A row that is affected itself, or references a value reached. */
  ghost predicate Hit(db: Db, links: seq<Link>, t: Table, affected: seq<Row>, patch: Option<Patch>, u: Table, r: Row) {
    || (u == t && r in affected)
    || exists l, x :: l in links && l.table == u && Eq(Get(r, l.col), x)
         && Reached(db, links, t, affected, patch, l.refTable, l.refCol, x)
  }

  /** One id, one row, in each table. */
  predicate UniqueIds(db: Db) {
    forall t :: t in db ==> forall i, j :: 0 <= i < j < |db[t]| ==> db[t][i].id != db[t][j].id
  }

  ghost predicate UnhitId(db: Db, links: seq<Link>, t: Table, affected: seq<Row>, patch: Option<Patch>, u: Table,
                          id: int)
  {
    forall r :: r in Rows(db, u) && r.id == id ==> !Hit(db, links, t, affected, patch, u, r)
  }

  /** The rows no action can come to, and the values it can. */
  ghost function Unreached(db: Db, links: seq<Link>, t: Table, affected: seq<Row>, patch: Option<Patch>): Region {
    Region((u: Table, id: int) => UnhitId(db, links, t, affected, patch, u, id),
           (u: Table, c: Column, v: Value) => Reached(db, links, t, affected, patch, u, c, v))
  }

  lemma {:induction false} UnreachedGuarded(w: World, db: Db, t: Table, f: Filter, patch: Option<Patch>)
    requires WellFormed(w.schema) && Known(w.schema, db) && t in db && UniqueIds(db) && FetchesOnly(w)
    ensures var region := Unreached(db, Links(w.schema), t, Select(db[t], f), patch);
      && Guarded(w, db, region, patch, patch.None?)
      && (forall r :: r in Select(db[t], f) ==> HotRow(r, t, Links(w.schema), patch, region))
      && (forall r :: r in db[t] && Selects(f, r) ==> !region.keep(t, r.id))
  {
    var links, affected := Links(w.schema), Select(db[t], f);
    var region := Unreached(db, links, t, affected, patch);
    assert Rows(db, t) == db[t];
    forall r | r in affected
      ensures HotRow(r, t, links, patch, region)
    {
    }
    forall r | r in db[t] && Selects(f, r)
      ensures !region.keep(t, r.id)
    {
      assert r in affected && Hit(db, links, t, affected, patch, t, r);
    }
    forall l, r, v | l in links && r in Rows(db, l.table) && region.keep(l.table, r.id)
      && region.hot(l.refTable, l.refCol, v)
      ensures !Eq(Get(r, l.col), v)
    {
      assert !Hit(db, links, t, affected, patch, l.table, r);
    }
    if patch.None? {
      forall u, r | r in Rows(db, u) && !region.keep(u, r.id)
        ensures HotRow(r, u, links, None, region)
      {
        HitIsHot(db, links, t, affected, u, r);
      }
    }
  }

  lemma HitIsHot(db: Db, links: seq<Link>, t: Table, affected: seq<Row>, u: Table, r: Row)
    requires UniqueIds(db) && r in Rows(db, u) && !UnhitId(db, links, t, affected, None, u, r.id)
    ensures HotRow(r, u, links, None, Unreached(db, links, t, affected, None))
  {
    var s :| s in Rows(db, u) && s.id == r.id && Hit(db, links, t, affected, None, u, s);
    var i :| 0 <= i < |db[u]| && db[u][i] == r;
    var j :| 0 <= j < |db[u]| && db[u][j] == s;
    assert i == j;
    if !(u == t && r in affected) {
      var l, x :| l in links && l.table == u && Eq(Get(r, l.col), x)
        && Reached(db, links, t, affected, None, l.refTable, l.refCol, x);
      forall m | m in links && m.refTable == u
        ensures Get(r, m.refCol).Null? || Reached(db, links, t, affected, None, u, m.refCol, Get(r, m.refCol))
      {
      }
    }
  }

  lemma FetchedAmong(w: World, rows: seq<Row>, t: Table, f: Filter)
    requires FetchesOnly(w)
    ensures forall r :: r in w.fetch(t, rows, f) ==> r in Select(rows, f)
    ensures FetchesAll(w) ==> forall r :: r in Select(rows, f) ==> r in w.fetch(t, rows, f)
  {
  }

  /** The filter is evaluated anew on the rows enforcement leaves: it selects no kept row even so. */
  lemma StillUnkept(db: Db, after: Db, t: Table, f: Filter, region: Region)
    requires t in db && after.Keys == db.Keys && SameKept(db, after, region)
    requires forall r :: r in db[t] && Selects(f, r) ==> !region.keep(t, r.id)
    ensures forall r :: r in after[t] && Selects(f, r) ==> !region.keep(t, r.id)
  {
    hide Selects;
    assert KeptRows(Rows(db, t), t, region) == KeptRows(Rows(after, t), t, region);
    KeptRowsAre(db[t], t, region);
    KeptRowsAre(after[t], t, region);
  }

  /** What a DELETE leaves alone, on any schema and whatever its status: each row that is not affected and that
      references no value reached is still there, unchanged and in its place among the others. */
  lemma {:induction false} DeleteSparesUnreached(w: World, db: Db, t: Table, f: Filter)
    requires WellFormed(w.schema) && Known(w.schema, db) && t in db && UniqueIds(db) && FetchesOnly(w)
    ensures SameKept(db, Deleted(w, db, t, f).db, Unreached(db, Links(w.schema), t, Select(db[t], f), None))
  {
    hide Guarded, Enforced, HotRow, Unreached, Select, SameKept, Cold, Sinks;
    var links, affected := Links(w.schema), Select(db[t], f);
    var region := Unreached(db, links, t, affected, None);
    UnreachedGuarded(w, db, t, f, None);
    var fetched := w.fetch(t, db[t], f);
    FetchedAmong(w, db[t], t, f);
    EnforcedSpares(w, db, t, fetched, None, 0, region, true);
    var below := Enforced(w, db, t, fetched, None, 0);
    StillGuarded(w, db, below.db, region, None, true);
    if below.ok {
      StillUnkept(db, below.db, t, f, region);
      DeleteSpares(w, below.db, t, region, f);
      SparesThenSpares(db, below.db, below.db[t := Reject(below.db[t], f)], links, region, true);
    }
  }

  /** The same for an UPDATE. */
  lemma {:induction false} UpdateSparesUnreached(w: World, db: Db, t: Table, f: Filter, patch: Patch)
    requires WellFormed(w.schema) && Known(w.schema, db) && t in db && UniqueIds(db) && FetchesOnly(w)
    ensures SameKept(db, Updated(w, db, t, f, patch).db,
                     Unreached(db, Links(w.schema), t, Select(db[t], f), Some(patch)))
  {
    hide Guarded, Enforced, HotRow, Unreached, Select, SameKept, Cold, Sinks, ChildPasses;
    var links, affected := Links(w.schema), Select(db[t], f);
    var region := Unreached(db, links, t, affected, Some(patch));
    UnreachedGuarded(w, db, t, f, Some(patch));
    SparesNothing(w, db, region, Some(patch), false);
    if ChildPasses(db, links, t, patch) {
      var fetched := w.fetch(t, db[t], f);
      FetchedAmong(w, db[t], t, f);
      EnforcedSpares(w, db, t, fetched, Some(patch), 0, region, false);
      var below := Enforced(w, db, t, fetched, Some(patch), 0);
      StillGuarded(w, db, below.db, region, Some(patch), false);
      if below.ok {
        StillUnkept(db, below.db, t, f, region);
        PatchSpares(w, below.db, t, region, f, patch, false);
        SparesThenSpares(db, below.db, below.db[t := Patched(below.db[t], f, patch, w.now)], links, region, false);
      }
    }
  }

  // ---------------------------------------------------------------- what exactly becomes of the rows

  /** No key column that is referenced is a foreign key itself. Otherwise what a cascade meets depends on the order
      in which the columns and tables come. */
  ghost predicate PlainKeys(links: seq<Link>) {
    forall l, m :: l in links && m in links ==> !(l.refTable == m.table && l.refCol == m.col)
  }

  /** Which of the original rows are gone, and which of their columns were given their new value. */
  datatype Marks = Marks(gone: (Table, Row) -> bool, given: (Table, Column, Row) -> bool)

  function FkCols(links: seq<Link>, t: Table): (cols: set<Column>)
    ensures forall c :: c in cols ==> FkOf(links, t, c).Some?
  {
    set l | l in links && l.table == t :: l.col
  }

  /** What an action writes to a foreign key column. */
  function GivenTo(links: seq<Link>, patch: Option<Patch>, t: Table, c: Column): Value {
    match FkOf(links, t, c)
    case None => Null
    case Some(l) => if ActionOf(l, patch) == SetNull then Null else NewOf(patch, l.refCol)
  }

  function Changes(links: seq<Link>, patch: Option<Patch>, marks: Marks, t: Table, r: Row): map<Column, Value> {
    map c | c in FkCols(links, t) && marks.given(t, c, r) :: GivenTo(links, patch, t, c)
  }

  function ImgRow(links: seq<Link>, patch: Option<Patch>, now: int, marks: Marks, t: Table, r: Row): Row {
    var changes := Changes(links, patch, marks, t, r);
    if changes == map[] then r else r.(updatedAt := now, fields := r.fields + changes)
  }

  function ImgRows(links: seq<Link>, patch: Option<Patch>, now: int, marks: Marks, t: Table, rows: seq<Row>): seq<Row> {
    if rows == [] then []
    else
      (if marks.gone(t, rows[0]) then [] else [ImgRow(links, patch, now, marks, t, rows[0])])
      + ImgRows(links, patch, now, marks, t, rows[1..])
  }

  /** The original database with the marked rows gone and the marked columns changed. */
  function Img(links: seq<Link>, patch: Option<Patch>, now: int, marks: Marks, db: Db): Db {
    map t | t in db :: ImgRows(links, patch, now, marks, t, db[t])
  }

  lemma FkIs(links: seq<Link>, l: Link)
    requires l in links && forall m :: m in links && m.table == l.table && m.col == l.col ==> m == l
    ensures FkOf(links, l.table, l.col) == Some(l) && l.col in FkCols(links, l.table)
  {
  }

  lemma ImgRowColumn(links: seq<Link>, patch: Option<Patch>, now: int, marks: Marks, l: Link, r: Row)
    requires l in links && l.col !in PSEUDO
    ensures Get(ImgRow(links, patch, now, marks, l.table, r), l.col) ==
      if marks.given(l.table, l.col, r) then GivenTo(links, patch, l.table, l.col) else Get(r, l.col)
  {
    hide FkOf, GivenTo;
    var changes := Changes(links, patch, marks, l.table, r);
    assert l.col in changes <==> marks.given(l.table, l.col, r);
  }

  lemma ImgRowKey(links: seq<Link>, patch: Option<Patch>, now: int, marks: Marks, l: Link, r: Row)
    requires l in links && PlainKeys(links) && l.refCol != "updated_at"
    ensures Get(ImgRow(links, patch, now, marks, l.refTable, r), l.refCol) == Get(r, l.refCol)
  {
    hide FkOf, GivenTo;
    assert l.refCol !in FkCols(links, l.refTable);
  }

  lemma {:induction false} InImgRows(links: seq<Link>, patch: Option<Patch>, now: int, marks: Marks, t: Table,
                                     rows: seq<Row>)
    ensures forall x :: x in ImgRows(links, patch, now, marks, t, rows) <==>
      exists r :: r in rows && !marks.gone(t, r) && x == ImgRow(links, patch, now, marks, t, r)
  {
    hide ImgRow;
    if rows != [] {
      InImgRows(links, patch, now, marks, t, rows[1..]);
      assert forall r :: r in rows <==> r == rows[0] || r in rows[1..];
    }
  }

  /** Marks that agree on the rows there are give the same rows. */
  lemma {:induction false} SameMarks(links: seq<Link>, patch: Option<Patch>, now: int, a: Marks, b: Marks, t: Table,
                                     rows: seq<Row>)
    requires forall r :: r in rows ==> a.gone(t, r) == b.gone(t, r)
    requires forall r, c :: r in rows && !a.gone(t, r) ==> a.given(t, c, r) == b.given(t, c, r)
    ensures ImgRows(links, patch, now, a, t, rows) == ImgRows(links, patch, now, b, t, rows)
  {
    hide ImgRow, GivenTo;
    if rows != [] {
      SameMarks(links, patch, now, a, b, t, rows[1..]);
      if !a.gone(t, rows[0]) {
        SameChanges(links, patch, now, a, b, t, rows[0]);
      }
    }
  }

  lemma SameChanges(links: seq<Link>, patch: Option<Patch>, now: int, a: Marks, b: Marks, t: Table, r: Row)
    requires forall c :: a.given(t, c, r) == b.given(t, c, r)
    ensures ImgRow(links, patch, now, a, t, r) == ImgRow(links, patch, now, b, t, r)
  {
    hide GivenTo, FkOf;
    assert Changes(links, patch, a, t, r) == Changes(links, patch, b, t, r);
  }

  const NO_MARKS := Marks((t: Table, r: Row) => false, (t: Table, c: Column, r: Row) => false)

  lemma {:induction false} NothingMarked(links: seq<Link>, patch: Option<Patch>, now: int, t: Table, rows: seq<Row>)
    ensures ImgRows(links, patch, now, NO_MARKS, t, rows) == rows
  {
    hide GivenTo, FkOf;
    if rows != [] {
      NothingMarked(links, patch, now, t, rows[1..]);
      assert Changes(links, patch, NO_MARKS, t, rows[0]) == map[];
    }
  }

  /** The rows of `l.table` that have `v` there and still had it. */
  function GoneToo(marks: Marks, l: Link, v: Value): Marks {
    Marks((t: Table, r: Row) =>
            marks.gone(t, r) || (t == l.table && !marks.given(t, l.col, r) && Eq(Get(r, l.col), v)),
          marks.given)
  }

  function GivenToo(marks: Marks, l: Link, v: Value): Marks {
    Marks(marks.gone,
          (t: Table, c: Column, r: Row) =>
            marks.given(t, c, r) || (t == l.table && c == l.col && Eq(Get(r, l.col), v)))
  }

  lemma {:induction false} DeleteMarks(links: seq<Link>, now: int, marks: Marks, l: Link, v: Value, rows: seq<Row>)
    requires l in links && l.col !in PSEUDO && !v.Null?
    ensures Reject(ImgRows(links, None, now, marks, l.table, rows), ColumnIs(l.col, v))
         == ImgRows(links, None, now, GoneToo(marks, l, v), l.table, rows)
  {
    hide GivenTo, FkOf, Compare;
    if rows != [] {
      DeleteMarks(links, now, marks, l, v, rows[1..]);
      var r, t := rows[0], l.table;
      var x := ImgRow(links, None, now, marks, t, r);
      ImgRowColumn(links, None, now, marks, l, r);
      NullGiven(links, t, l.col, v);
      SameChanges(links, None, now, marks, GoneToo(marks, l, v), t, r);
      var later := ImgRows(links, None, now, marks, t, rows[1..]);
      hide ImgRow;
      if marks.gone(t, r) {
        assert ImgRows(links, None, now, marks, t, rows) == later;
      } else {
        assert ImgRows(links, None, now, marks, t, rows) == [x] + later;
        RejectFirst(x, later, ColumnIs(l.col, v));
      }
    }
  }

  lemma RejectFirst(x: Row, later: seq<Row>, f: Filter)
    ensures Reject([x] + later, f) == (if Selects(f, x) then [] else [x]) + Reject(later, f)
  {
    hide Selects;
  }

  /** While rows are deleted, columns are given NULL. */
  lemma NullGiven(links: seq<Link>, t: Table, c: Column, v: Value)
    ensures GivenTo(links, None, t, c) == Null
    ensures !v.Null? ==> !Eq(Null, v)
  {
  }

  lemma GivenTooIs(marks: Marks, l: Link, v: Value, t: Table, c: Column, r: Row)
    ensures GivenToo(marks, l, v).given(t, c, r) <==>
      marks.given(t, c, r) || (t == l.table && c == l.col && Eq(Get(r, l.col), v))
  {
  }

  /** The changed columns and what they are changed to. */
  lemma ChangesAre(links: seq<Link>, patch: Option<Patch>, marks: Marks, t: Table, r: Row)
    ensures forall c :: c in Changes(links, patch, marks, t, r) <==> c in FkCols(links, t) && marks.given(t, c, r)
    ensures forall c :: c in Changes(links, patch, marks, t, r) ==>
      Changes(links, patch, marks, t, r)[c] == GivenTo(links, patch, t, c)
  {
    hide GivenTo, FkOf, FkCols;
  }

  lemma InFkCols(links: seq<Link>, l: Link)
    requires l in links
    ensures l.col in FkCols(links, l.table)
  {
  }

  lemma {:induction false} ChangesNext(links: seq<Link>, patch: Option<Patch>, marks: Marks, l: Link, v: Value, r: Row)
    requires l in links
    ensures var before := Changes(links, patch, marks, l.table, r);
      var after := Changes(links, patch, GivenToo(marks, l, v), l.table, r);
      && (marks.given(l.table, l.col, r) <==> l.col in before)
      && (l.col in before ==> before[l.col] == GivenTo(links, patch, l.table, l.col))
      && after == if !Eq(Get(r, l.col), v) then before else before + map[l.col := GivenTo(links, patch, l.table, l.col)]
  {
    var t, due := l.table, GivenTo(links, patch, l.table, l.col);
    var before, after := Changes(links, patch, marks, t, r), Changes(links, patch, GivenToo(marks, l, v), t, r);
    hide *;
    InFkCols(links, l);
    ChangesAre(links, patch, marks, t, r);
    ChangesAre(links, patch, GivenToo(marks, l, v), t, r);
    forall c
      ensures GivenToo(marks, l, v).given(t, c, r) <==>
        marks.given(t, c, r) || (c == l.col && Eq(Get(r, l.col), v))
    {
      GivenTooIs(marks, l, v, t, c, r);
    }
    if Eq(Get(r, l.col), v) {
      assert after == before + map[l.col := due];
    } else {
      assert after == before;
    }
  }

  lemma PatchedTwice(fields: map<Column, Value>, changes: map<Column, Value>, c: Column, v: Value)
    ensures fields + changes + map[c := v] == fields + (changes + map[c := v])
    ensures c in changes && changes[c] == v ==> changes + map[c := v] == changes
  {
  }

  lemma {:induction false} PatchedRowMarks(links: seq<Link>, patch: Option<Patch>, now: int, marks: Marks, l: Link,
                                           v: Value, r: Row)
    requires l in links && l.col !in PSEUDO
    requires forall m :: m in links && m.table == l.table && m.col == l.col ==> m == l
    ensures var x := ImgRow(links, patch, now, marks, l.table, r);
      (if Selects(ColumnIs(l.col, v), x) then PatchRow(x, map[l.col := GivenTo(links, patch, l.table, l.col)], now)
       else x)
      == ImgRow(links, patch, now, GivenToo(marks, l, v), l.table, r)
  {
    hide GivenTo, FkOf, Compare, Changes, Get, GivenToo;
    var t, due := l.table, GivenTo(links, patch, l.table, l.col);
    var before := Changes(links, patch, marks, t, r);
    ImgRowColumn(links, patch, now, marks, l, r);
    ChangesNext(links, patch, marks, l, v, r);
    PatchedTwice(r.fields, before, l.col, due);
    PatchedTwice(r.fields, map[], l.col, due);
    assert r.fields + map[] == r.fields && map[] + map[l.col := due] == map[l.col := due];
  }

  lemma {:induction false} PatchMarks(links: seq<Link>, patch: Option<Patch>, now: int, marks: Marks, l: Link, v: Value,
                                      rows: seq<Row>)
    requires l in links && l.col !in PSEUDO
    requires forall m :: m in links && m.table == l.table && m.col == l.col ==> m == l
    ensures Patched(ImgRows(links, patch, now, marks, l.table, rows), ColumnIs(l.col, v),
                    map[l.col := GivenTo(links, patch, l.table, l.col)], now)
         == ImgRows(links, patch, now, GivenToo(marks, l, v), l.table, rows)
  {
    hide GivenTo, ImgRow, PatchRow, Selects, GivenToo;
    if rows != [] {
      var one := map[l.col := GivenTo(links, patch, l.table, l.col)];
      PatchMarks(links, patch, now, marks, l, v, rows[1..]);
      PatchedRowMarks(links, patch, now, marks, l, v, rows[0]);
      assert GivenToo(marks, l, v).gone == marks.gone by {
        GoneUnchanged(marks, l, v);
      }
      var later := ImgRows(links, patch, now, marks, l.table, rows[1..]);
      if !marks.gone(l.table, rows[0]) {
        PatchedFirst(ImgRow(links, patch, now, marks, l.table, rows[0]), later, ColumnIs(l.col, v), one, now);
      } else {
        assert ImgRows(links, patch, now, marks, l.table, rows) == later;
      }
    }
  }

  lemma GoneUnchanged(marks: Marks, l: Link, v: Value)
    ensures GivenToo(marks, l, v).gone == marks.gone
  {
  }

  lemma PatchedFirst(x: Row, later: seq<Row>, f: Filter, patch: Patch, now: int)
    ensures Patched([x] + later, f, patch, now)
         == [if Selects(f, x) then PatchRow(x, patch, now) else x] + Patched(later, f, patch, now)
  {
  }

  // ---------------------------------------------------------------- enforcement marks what it must

  /** One run: the original database, and which rows are to go and which columns are to be given a value. */
  datatype Run = Run(w: World, db0: Db, patch: Option<Patch>, goal: Marks)
  {
    function Links(): seq<Link> {
      ForeignKeys.Links(w.schema)
    }

    ghost function Image(marks: Marks): Db {
      Img(Links(), patch, w.now, marks, db0)
    }

    /** The goal has what the referencers of `v` through `l` must undergo. */
    ghost predicate Source(l: Link, v: Value) {
      v.Null? || forall r :: r in Rows(db0, l.table) && Eq(Get(r, l.col), v) ==>
        match ActionOf(l, patch)
        case Restrict => true
        case SetNull => goal.given(l.table, l.col, r)
        case Cascade => if patch.Some? then goal.given(l.table, l.col, r) else goal.gone(l.table, r)
    }

    ghost predicate SourceRow(t: Table, r: Row) {
      forall l :: l in Links() && l.refTable == t && Touches(patch, l.refCol) ==> Source(l, Get(r, l.refCol))
    }

    ghost predicate Valid(rank: Table -> nat) {
      && Sound(w, rank, db0) && PlainKeys(Links())
      && (patch.None? ==> forall t, r :: r in Rows(db0, t) && goal.gone(t, r) ==> SourceRow(t, r))
    }

    /** Nothing is marked beyond the goal. */
    ghost predicate Within(marks: Marks) {
      && (forall t, r :: r in Rows(db0, t) && marks.gone(t, r) ==> goal.gone(t, r))
      && (forall t, c, r :: r in Rows(db0, t) && marks.given(t, c, r) ==> goal.given(t, c, r))
    }

    /** No original row depends on `v` through `l` any more. */
    ghost predicate Settled(marks: Marks, l: Link, v: Value) {
      v.Null? || forall r :: r in Rows(db0, l.table) && Eq(Get(r, l.col), v) ==>
        marks.gone(l.table, r) || marks.given(l.table, l.col, r)
    }

    ghost predicate SettledRow(marks: Marks, t: Table, r: Row) {
      forall l :: l in Links() && l.refTable == t && Touches(patch, l.refCol) ==> Settled(marks, l, Get(r, l.refCol))
    }

    /** No original row depends on a row that is gone. */
    ghost predicate Finished(marks: Marks) {
      patch.None? ==> forall t, r :: r in Rows(db0, t) && marks.gone(t, r) ==> SettledRow(marks, t, r)
    }

    ghost predicate State(db: Db, marks: Marks) {
      db == Image(marks) && Within(marks) && Finished(marks)
    }

    /** More is marked, in tables below `bound` only. */
    ghost predicate Grows(a: Marks, b: Marks, rank: Table -> nat, bound: nat) {
      && (forall t, r :: r in Rows(db0, t) && a.gone(t, r) ==> b.gone(t, r))
      && (forall t, c, r :: r in Rows(db0, t) && a.given(t, c, r) ==> b.given(t, c, r))
      && (forall t, r :: r in Rows(db0, t) && rank(t) >= bound ==> a.gone(t, r) == b.gone(t, r))
      && (forall t, c, r :: r in Rows(db0, t) && rank(t) >= bound ==> a.given(t, c, r) == b.given(t, c, r))
    }

    lemma GrowsOn(a: Marks, b: Marks, c: Marks, rank: Table -> nat, bound: nat, higher: nat)
      requires Grows(a, b, rank, bound) && Grows(b, c, rank, higher) && bound <= higher
      ensures Grows(a, c, rank, higher)
    {
    }

    lemma GrowsHigher(a: Marks, b: Marks, rank: Table -> nat, bound: nat, higher: nat)
      requires Grows(a, b, rank, bound) && bound <= higher
      ensures Grows(a, b, rank, higher)
    {
    }

    lemma StaysSettled(a: Marks, b: Marks, rank: Table -> nat, bound: nat, l: Link, v: Value)
      requires Grows(a, b, rank, bound) && Settled(a, l, v)
      ensures Settled(b, l, v)
    {
    }

    lemma RowStaysSettled(a: Marks, b: Marks, rank: Table -> nat, bound: nat, t: Table, r: Row)
      requires Grows(a, b, rank, bound) && SettledRow(a, t, r)
      ensures SettledRow(b, t, r)
    {
      hide Grows, Settled, Links;
      forall l | l in Links() && l.refTable == t && Touches(patch, l.refCol)
        ensures Settled(b, l, Get(r, l.refCol))
      {
        StaysSettled(a, b, rank, bound, l, Get(r, l.refCol));
      }
    }

    /** A row of the image and the original row it stands for. */
    lemma Original(db: Db, marks: Marks, t: Table, x: Row) returns (r: Row)
      requires db == Image(marks) && x in Rows(db, t)
      ensures r in Rows(db0, t) && !marks.gone(t, r) && x == ImgRow(Links(), patch, w.now, marks, t, r)
    {
      hide ImgRow, ImgRows;
      InImgRows(Links(), patch, w.now, marks, t, db0[t]);
      r :| r in db0[t] && !marks.gone(t, r) && x == ImgRow(Links(), patch, w.now, marks, t, r);
    }

    lemma InImage(db: Db, marks: Marks, t: Table, r: Row)
      requires db == Image(marks) && r in Rows(db0, t) && !marks.gone(t, r)
      ensures ImgRow(Links(), patch, w.now, marks, t, r) in Rows(db, t)
    {
      hide ImgRow, ImgRows;
      InImgRows(Links(), patch, w.now, marks, t, db0[t]);
    }

    /** When `l.table` no longer has a row with `v`, all that had it have been dealt with. */
    lemma NoneLeft(db: Db, marks: Marks, l: Link, v: Value)
      requires db == Image(marks) && l in Links() && l.col !in PSEUDO && l.table in db
      requires Select(db[l.table], ColumnIs(l.col, v)) == []
      ensures Settled(marks, l, v)
    {
      hide ImgRow, ImgRows, GivenTo, Img, Compare;
      forall r | r in Rows(db0, l.table) && Eq(Get(r, l.col), v) && !marks.gone(l.table, r)
        ensures marks.given(l.table, l.col, r)
      {
        InImage(db, marks, l.table, r);
        ImgRowColumn(Links(), patch, w.now, marks, l, r);
        var x := ImgRow(Links(), patch, w.now, marks, l.table, r);
        assert x !in Select(db[l.table], ColumnIs(l.col, v));
      }
    }

    /** Writing one referencing column, with all that had `v` given their value. */
    lemma {:induction false} Gives(db: Db, marks: Marks, rank: Table -> nat, l: Link, v: Value)
      requires Valid(rank) && State(db, marks) && l in Links() && !v.Null? && l.table in db
      requires Source(l, v) && ActionOf(l, patch) != Restrict && (ActionOf(l, patch) == SetNull || patch.Some?)
      ensures var after := db[l.table := Patched(db[l.table], ColumnIs(l.col, v),
                                                  map[l.col := GivenTo(Links(), patch, l.table, l.col)], w.now)];
        State(after, GivenToo(marks, l, v))
      ensures Grows(marks, GivenToo(marks, l, v), rank, rank(l.refTable)) && Settled(GivenToo(marks, l, v), l, v)
    {
      hide ImgRows, GivenTo, Compare, Get, Patched;
      var more := GivenToo(marks, l, v);
      PatchMarks(Links(), patch, w.now, marks, l, v, db0[l.table]);
      var after := db[l.table := Patched(db[l.table], ColumnIs(l.col, v),
                                         map[l.col := GivenTo(Links(), patch, l.table, l.col)], w.now)];
      assert after == Image(more) by {
        forall t | t in db0
          ensures after[t] == Image(more)[t]
        {
          if t != l.table {
            SameMarks(Links(), patch, w.now, marks, more, t, db0[t]);
          }
        }
      }
      assert Grows(marks, more, rank, rank(l.refTable));
      if patch.None? {
        forall t, r | r in Rows(db0, t) && more.gone(t, r)
          ensures SettledRow(more, t, r)
        {
          RowStaysSettled(marks, more, rank, rank(l.refTable), t, r);
        }
      }
    }

    /** The row still has `v`. */
    predicate Stays(marks: Marks, l: Link, v: Value, r: Row) {
      !marks.gone(l.table, r) && !marks.given(l.table, l.col, r) && Eq(Get(r, l.col), v)
    }

    /** Deleting the rows that had `v`, once nothing depends on them. */
    lemma {:induction false} Drops(db: Db, marks: Marks, rank: Table -> nat, l: Link, v: Value)
      requires Valid(rank) && State(db, marks) && l in Links() && !v.Null? && l.table in db
      requires Source(l, v) && ActionOf(l, patch) == Cascade && patch.None?
      requires forall r :: r in Rows(db0, l.table) && Stays(marks, l, v, r) ==> SettledRow(marks, l.table, r)
      ensures State(db[l.table := Reject(db[l.table], ColumnIs(l.col, v))], GoneToo(marks, l, v))
      ensures Grows(marks, GoneToo(marks, l, v), rank, rank(l.refTable)) && Settled(GoneToo(marks, l, v), l, v)
    {
      hide ImgRows, GivenTo, Compare, Get, SettledRow;
      var more := GoneToo(marks, l, v);
      DeleteMarks(Links(), w.now, marks, l, v, db0[l.table]);
      var after := db[l.table := Reject(db[l.table], ColumnIs(l.col, v))];
      assert after == Image(more) by {
        forall t | t in db0
          ensures after[t] == Image(more)[t]
        {
          if t != l.table {
            SameMarks(Links(), patch, w.now, marks, more, t, db0[t]);
          }
        }
      }
      assert Grows(marks, more, rank, rank(l.refTable));
      forall t, r | r in Rows(db0, t) && more.gone(t, r)
        ensures SettledRow(more, t, r)
      {
        RowStaysSettled(marks, more, rank, rank(l.refTable), t, r);
      }
    }
  }

  lemma {:induction false} EachRowNoRefs(w: World, db: Db, c: Column, affected: seq<Row>, patch: Option<Patch>,
                                         depth: nat)
    requires Known(w.schema, db) && depth <= FK_MAX_CASCADE_DEPTH
    ensures EachRow(w, db, [], c, affected, patch, depth) == Result(true, db)
  {
    if affected != [] {
      EachRowNoRefs(w, db, c, affected[1..], patch, depth);
    }
  }

  lemma {:induction false} ReferencersNone(links: seq<Link>, t: Table, c: Column)
    requires forall l :: l in links ==> !(l.refTable == t && l.refCol == c)
    ensures Referencers(links, t, c) == []
  {
    if links != [] {
      ReferencersNone(links[1..], t, c);
    }
  }

  lemma {:induction false} EachColumnNoRefs(w: World, db: Db, t: Table, cols: seq<Column>, affected: seq<Row>,
                                            patch: Option<Patch>, depth: nat)
    requires Known(w.schema, db) && depth <= FK_MAX_CASCADE_DEPTH
    requires forall l :: l in Links(w.schema) && l.refTable == t ==> !Touches(patch, l.refCol)
    ensures EachColumn(w, db, t, cols, affected, patch, depth) == Result(true, db)
  {
    hide EachRow, Links;
    if cols != [] {
      if Touches(patch, cols[0]) {
        var refs := Found(Links(w.schema), t, cols[0]);
        ReferencersNone(Links(w.schema), t, cols[0]);
        EachRowNoRefs(w, db, cols[0], affected, patch, depth);
      }
      EachColumnNoRefs(w, db, t, cols[1..], affected, patch, depth);
    }
  }

  /** Nothing refers to the written column, so nothing is to be done first. */
  lemma SetOnePlain(w: World, db: Db, l: Link, v: Value, newV: Value, depth: nat)
    requires Known(w.schema, db) && l in Links(w.schema) && PlainKeys(Links(w.schema))
    requires depth <= FK_MAX_CASCADE_DEPTH + 1
    ensures SetOne(w, db, l, v, newV, depth) ==
      if depth > FK_MAX_CASCADE_DEPTH then Result(false, db)
      else Written(w, db, l.table, Patched(db[l.table], ColumnIs(l.col, v), map[l.col := newV], w.now))
  {
    hide EachColumn, Links;
    if depth <= FK_MAX_CASCADE_DEPTH {
      var affected := w.fetch(l.table, db[l.table], ColumnIs(l.col, v));
      EachColumnNoRefs(w, db, l.table, EnforcedColumns(w.schema, l.table), affected, Some(map[l.col := newV]), depth);
    }
  }

  lemma StateKnown(run: Run, rank: Table -> nat, db: Db, marks: Marks)
    requires run.Valid(rank) && run.State(db, marks)
    ensures Known(run.w.schema, db) && db.Keys == run.db0.Keys
    ensures run.Grows(marks, marks, rank, 0)
  {
  }

  lemma LinkFacts(run: Run, rank: Table -> nat, l: Link)
    requires run.Valid(rank) && l in run.Links()
    ensures rank(l.table) < rank(l.refTable) && l.table in run.db0 && l.col !in PSEUDO
    ensures GivenTo(run.Links(), run.patch, l.table, l.col)
         == if ActionOf(l, run.patch) == SetNull then Null else NewOf(run.patch, l.refCol)
  {
    FkIs(run.Links(), l);
  }

  /** The rows a cascade deletes next: what references them must undergo is in the goal. */
  lemma {:induction false} NextSources(run: Run, rank: Table -> nat, db: Db, marks: Marks, l: Link, v: Value)
    requires run.Valid(rank) && run.State(db, marks) && l in run.Links() && !v.Null? && run.Source(l, v)
    requires l.table in db && run.patch.None? && ActionOf(l, run.patch) == Cascade
    ensures forall x :: x in Select(db[l.table], ColumnIs(l.col, v)) ==> run.SourceRow(l.table, x)
  {
    hide ImgRow, GivenTo, Compare, Get, Img, FkOf;
    LinkFacts(run, rank, l);
    forall x | x in Select(db[l.table], ColumnIs(l.col, v))
      ensures run.SourceRow(l.table, x)
    {
      assert x in Rows(db, l.table);
      var r := run.Original(db, marks, l.table, x);
      ImgRowColumn(run.Links(), run.patch, run.w.now, marks, l, r);
      NullGiven(run.Links(), l.table, l.col, v);
      assert run.goal.gone(l.table, r) && run.SourceRow(l.table, r);
      forall m | m in run.Links() && m.refTable == l.table
        ensures run.Source(m, Get(x, m.refCol))
      {
        ImgRowKey(run.Links(), run.patch, run.w.now, marks, m, r);
      }
    }
  }

  /** And once those rows' references have been dealt with, the rows themselves can go. */
  lemma {:induction false} NextSettled(run: Run, rank: Table -> nat, db: Db, marks: Marks, more: Marks, l: Link,
                                       v: Value)
    requires run.Valid(rank) && run.State(db, marks) && l in run.Links() && l.table in db
    requires run.Grows(marks, more, rank, rank(l.table))
    requires forall x :: x in run.w.fetch(l.table, db[l.table], ColumnIs(l.col, v)) ==> run.SettledRow(more, l.table, x)
    ensures forall r :: r in Rows(run.db0, l.table) && run.Stays(more, l, v, r) ==> run.SettledRow(more, l.table, r)
  {
    hide ImgRow, GivenTo, Compare, Get, Img, FkOf;
    LinkFacts(run, rank, l);
    ValidFetches(run, rank);
    FetchedAmong(run.w, db[l.table], l.table, ColumnIs(l.col, v));
    forall r | r in Rows(run.db0, l.table) && run.Stays(more, l, v, r)
      ensures run.SettledRow(more, l.table, r)
    {
      run.InImage(db, marks, l.table, r);
      ImgRowColumn(run.Links(), run.patch, run.w.now, marks, l, r);
      var x := ImgRow(run.Links(), run.patch, run.w.now, marks, l.table, r);
      assert x in Select(db[l.table], ColumnIs(l.col, v));
      forall m | m in run.Links() && m.refTable == l.table && Touches(run.patch, m.refCol)
        ensures run.Settled(more, m, Get(r, m.refCol))
      {
        ImgRowKey(run.Links(), run.patch, run.w.now, marks, m, r);
      }
    }
  }

  lemma {:induction false} OneMarks(run: Run, rank: Table -> nat, db: Db, marks: Marks, l: Link, v: Value, depth: nat)
    returns (more: Marks)
    requires run.Valid(rank) && run.State(db, marks) && Known(run.w.schema, db) && l in run.Links() && !v.Null?
    requires depth <= FK_MAX_CASCADE_DEPTH && run.Source(l, v) && Touches(run.patch, l.refCol)
    ensures var out := One(run.w, db, l, v, run.patch, depth);
      run.State(out.db, more) && run.Grows(marks, more, rank, rank(l.refTable)) && (out.ok ==> run.Settled(more, l, v))
    decreases FK_MAX_CASCADE_DEPTH + 1 - depth, 0, 0
  {
    hide Enforced, Patched, Reject, Select, SetOne, GivenTo, GivenToo, GoneToo, Known, Links, PSEUDO;
    hide Run.State, Run.Grows, Run.Settled, Run.Source, Run.Valid, Run.SettledRow, Run.SourceRow;
    StateKnown(run, rank, db, marks);
    LinkFacts(run, rank, l);
    run.GrowsHigher(marks, marks, rank, 0, rank(l.refTable));
    more := marks;
    var w, f, action := run.w, ColumnIs(l.col, v), ActionOf(l, run.patch);
    if action == Restrict {
      if Select(db[l.table], f) == [] {
        ImageOf(run, db, marks);
        run.NoneLeft(db, marks, l, v);
      }
    } else if action == SetNull || run.patch.Some? {
      var newV := if action == SetNull then Null else NewOf(run.patch, l.refCol);
      SetOnePlain(w, db, l, v, newV, depth + 1) by {
        ValidPlain(run, rank);
      }
      run.Gives(db, marks, rank, l, v);
      if SetOne(w, db, l, v, newV, depth + 1).ok {
        more := GivenToo(marks, l, v);
      }
    } else {
      var affected := w.fetch(l.table, db[l.table], f);
      FetchedAmong(w, db[l.table], l.table, f) by {
        ValidFetches(run, rank);
      }
      NextSources(run, rank, db, marks, l, v);
      more := EnforcedMarks(run, rank, db, marks, l.table, affected, depth + 1);
      var below := Enforced(w, db, l.table, affected, None, depth + 1);
      run.GrowsHigher(marks, more, rank, rank(l.table), rank(l.refTable));
      if below.ok {
        NextSettled(run, rank, db, marks, more, l, v);
        run.Drops(below.db, more, rank, l, v);
        if w.accepts(l.table, below.db[l.table], Reject(below.db[l.table], f)) {
          run.GrowsOn(marks, more, GoneToo(more, l, v), rank, rank(l.table), rank(l.refTable));
          more := GoneToo(more, l, v);
        }
      }
    }
  }

  lemma ImageOf(run: Run, db: Db, marks: Marks)
    requires run.State(db, marks)
    ensures db == run.Image(marks)
  {
  }

  lemma ValidFetches(run: Run, rank: Table -> nat)
    requires run.Valid(rank)
    ensures FetchesOnly(run.w) && FetchesAll(run.w)
  {
  }

  lemma ValidPlain(run: Run, rank: Table -> nat)
    requires run.Valid(rank)
    ensures PlainKeys(run.Links())
  {
  }

  lemma {:induction false} EachMarks(run: Run, rank: Table -> nat, db: Db, marks: Marks, refs: seq<Link>, t: Table,
                                     v: Value, depth: nat) returns (more: Marks)
    requires run.Valid(rank) && run.State(db, marks) && Known(run.w.schema, db) && !v.Null?
    requires depth <= FK_MAX_CASCADE_DEPTH
    requires forall l :: l in refs ==>
      l in run.Links() && l.refTable == t && Touches(run.patch, l.refCol) && run.Source(l, v)
    ensures var out := Each(run.w, db, refs, v, run.patch, depth);
      && run.State(out.db, more) && run.Grows(marks, more, rank, rank(t))
      && (out.ok ==> forall l :: l in refs ==> run.Settled(more, l, v))
    decreases FK_MAX_CASCADE_DEPTH + 1 - depth, 1, |refs|
  {
    hide One, Run.State, Run.Grows, Run.Settled, Run.Source, Run.Valid;
    StateKnown(run, rank, db, marks);
    run.GrowsHigher(marks, marks, rank, 0, rank(t));
    more := marks;
    if refs != [] {
      more := OneMarks(run, rank, db, marks, refs[0], v, depth);
      var first := One(run.w, db, refs[0], v, run.patch, depth);
      if first.ok {
        var mid := more;
        more := EachMarks(run, rank, first.db, mid, refs[1..], t, v, depth);
        run.GrowsOn(marks, mid, more, rank, rank(t), rank(t));
        run.StaysSettled(mid, more, rank, rank(t), refs[0], v);
      }
    }
  }

  lemma {:induction false} EachRowMarks(run: Run, rank: Table -> nat, db: Db, marks: Marks, refs: seq<Link>, t: Table,
                                        c: Column, affected: seq<Row>, depth: nat) returns (more: Marks)
    requires run.Valid(rank) && run.State(db, marks) && Known(run.w.schema, db) && depth <= FK_MAX_CASCADE_DEPTH
    requires Touches(run.patch, c)
    requires forall l :: l in refs ==> l in run.Links() && l.refTable == t && l.refCol == c
    requires forall r :: r in affected ==> run.SourceRow(t, r)
    ensures var out := EachRow(run.w, db, refs, c, affected, run.patch, depth);
      && run.State(out.db, more) && run.Grows(marks, more, rank, rank(t))
      && (out.ok ==> forall l, r :: l in refs && r in affected ==> run.Settled(more, l, Get(r, c)))
    decreases FK_MAX_CASCADE_DEPTH + 1 - depth, 2, |affected|
  {
    hide Each, Run.State, Run.Grows, Run.Settled, Run.Source, Run.Valid;
    StateKnown(run, rank, db, marks);
    run.GrowsHigher(marks, marks, rank, 0, rank(t));
    more := marks;
    if affected != [] {
      var v := Get(affected[0], c);
      var first := if v.Null? then Result(true, db) else Each(run.w, db, refs, v, run.patch, depth);
      assert run.SourceRow(t, affected[0]);
      if !v.Null? {
        more := EachMarks(run, rank, db, marks, refs, t, v, depth);
      }
      if first.ok {
        var mid := more;
        more := EachRowMarks(run, rank, first.db, mid, refs, t, c, affected[1..], depth);
        run.GrowsOn(marks, mid, more, rank, rank(t), rank(t));
        forall l | l in refs && EachRow(run.w, db, refs, c, affected, run.patch, depth).ok
          ensures run.Settled(more, l, v)
        {
          if v.Null? {
            NullSettled(run, more, l);
          } else {
            run.StaysSettled(mid, more, rank, rank(t), l, v);
          }
        }
      }
    }
  }

  lemma NullSettled(run: Run, marks: Marks, l: Link)
    ensures run.Settled(marks, l, Null)
  {
  }

  lemma {:induction false} EachColumnMarks(run: Run, rank: Table -> nat, db: Db, marks: Marks, t: Table,
                                           cols: seq<Column>, affected: seq<Row>, depth: nat) returns (more: Marks)
    requires run.Valid(rank) && run.State(db, marks) && Known(run.w.schema, db) && depth <= FK_MAX_CASCADE_DEPTH
    requires forall r :: r in affected ==> run.SourceRow(t, r)
    ensures var out := EachColumn(run.w, db, t, cols, affected, run.patch, depth);
      && run.State(out.db, more) && run.Grows(marks, more, rank, rank(t))
      && (out.ok ==> forall l, r :: (l in run.Links() && l.refTable == t && l.refCol in cols
                       && Touches(run.patch, l.refCol) && r in affected) ==> run.Settled(more, l, Get(r, l.refCol)))
    decreases FK_MAX_CASCADE_DEPTH + 1 - depth, 3, |cols|
  {
    hide EachRow, Run.State, Run.Grows, Run.Settled, Run.Source, Run.Valid, Run.SourceRow, Found, Links;
    StateKnown(run, rank, db, marks);
    run.GrowsHigher(marks, marks, rank, 0, rank(t));
    more := marks;
    if cols != [] {
      var c := cols[0];
      var refs := Found(run.Links(), t, c);
      if Touches(run.patch, c) {
        more := EachRowMarks(run, rank, db, marks, refs, t, c, affected, depth);
      }
      var first := if Touches(run.patch, c) then EachRow(run.w, db, refs, c, affected, run.patch, depth)
                   else Result(true, db);
      if first.ok {
        var mid := more;
        more := EachColumnMarks(run, rank, first.db, mid, t, cols[1..], affected, depth);
        run.GrowsOn(marks, mid, more, rank, rank(t), rank(t));
        forall l, r | l in run.Links() && l.refTable == t && l.refCol == c && Touches(run.patch, c) && r in affected
          && EachColumn(run.w, db, t, cols, affected, run.patch, depth).ok
          ensures run.Settled(more, l, Get(r, c))
        {
          AllFound(run, rank, l);
          run.StaysSettled(mid, more, rank, rank(t), l, Get(r, c));
        }
      }
    }
  }

  lemma AllFound(run: Run, rank: Table -> nat, l: Link)
    requires run.Valid(rank) && l in run.Links()
    ensures l in Found(run.Links(), l.refTable, l.refCol) && l.refCol in EnforcedColumns(run.w.schema, l.refTable)
  {
    ReferencersMatch(run.Links(), l.refTable, l.refCol);
  }

  /** Enforcement marks nothing beyond the goal, whatever its status; on success nothing is left that depends on
      the affected rows. */
  lemma {:induction false} EnforcedMarks(run: Run, rank: Table -> nat, db: Db, marks: Marks, t: Table,
                                         affected: seq<Row>, depth: nat) returns (more: Marks)
    requires run.Valid(rank) && run.State(db, marks) && Known(run.w.schema, db) && depth <= FK_MAX_CASCADE_DEPTH + 1
    requires forall r :: r in affected ==> run.SourceRow(t, r)
    ensures var out := Enforced(run.w, db, t, affected, run.patch, depth);
      && run.State(out.db, more) && run.Grows(marks, more, rank, rank(t))
      && (out.ok ==> forall r :: r in affected ==> run.SettledRow(more, t, r))
    decreases FK_MAX_CASCADE_DEPTH + 1 - depth, 4, 0
  {
    hide EachColumn, Run.State, Run.Grows, Run.Settled, Run.Source, Run.Valid, Run.SourceRow, EnforcedColumns, Links;
    StateKnown(run, rank, db, marks);
    run.GrowsHigher(marks, marks, rank, 0, rank(t));
    more := marks;
    if depth <= FK_MAX_CASCADE_DEPTH {
      more := EachColumnMarks(run, rank, db, marks, t, EnforcedColumns(run.w.schema, t), affected, depth);
      if EachColumn(run.w, db, t, EnforcedColumns(run.w.schema, t), affected, run.patch, depth).ok {
        forall r | r in affected
          ensures run.SettledRow(more, t, r)
        {
          forall l | l in run.Links() && l.refTable == t && Touches(run.patch, l.refCol)
            ensures run.Settled(more, l, Get(r, l.refCol))
          {
            AllFound(run, rank, l);
          }
        }
      }
    }
  }

  // ---------------------------------------------------------------- what DELETE and UPDATE mean

  predicate References(r: Row, l: Link, p: Row) {
    !Get(p, l.refCol).Null? && Eq(Get(r, l.col), Get(p, l.refCol))
  }

  /** The rows a DELETE is to remove: the affected ones and those that reference one by ON DELETE CASCADE. */
  least predicate Doomed(db: Db, links: seq<Link>, t: Table, affected: seq<Row>, u: Table, r: Row) {
    || (u == t && r in affected)
    || exists l, p :: l in links && l.table == u && l.onDelete == Cascade && p in Rows(db, l.refTable)
         && References(r, l, p) && Doomed(db, links, t, affected, l.refTable, p)
  }

  /** The references it is to clear: those to such a row by ON DELETE SET NULL. */
  ghost predicate Orphaned(db: Db, links: seq<Link>, t: Table, affected: seq<Row>, u: Table, c: Column, r: Row) {
    exists l, p :: l in links && l.table == u && l.col == c && l.onDelete == SetNull && p in Rows(db, l.refTable)
      && References(r, l, p) && Doomed(db, links, t, affected, l.refTable, p)
  }

  ghost function DeleteGoal(db: Db, links: seq<Link>, t: Table, affected: seq<Row>): Marks {
    Marks((u: Table, r: Row) => Doomed(db, links, t, affected, u, r),
          (u: Table, c: Column, r: Row) => Orphaned(db, links, t, affected, u, c, r))
  }

  /** The references an UPDATE is to change: those to an affected row by a column the patch names. */
  ghost predicate Reassigned(links: seq<Link>, t: Table, affected: seq<Row>, patch: Patch, u: Table, c: Column, r: Row)
  {
    exists l, p :: l in links && l.table == u && l.col == c && l.refTable == t && l.refCol in patch
      && l.onUpdate != Restrict && p in affected && References(r, l, p)
  }

  ghost function UpdateGoal(links: seq<Link>, t: Table, affected: seq<Row>, patch: Patch): Marks {
    Marks((u: Table, r: Row) => false,
          (u: Table, c: Column, r: Row) => Reassigned(links, t, affected, patch, u, c, r))
  }

  lemma CascadeIsNotCleared(db: Db, links: seq<Link>, t: Table, affected: seq<Row>, l: Link, r: Row)
    requires l.onDelete == Cascade && forall m :: m in links && m.table == l.table && m.col == l.col ==> m == l
    ensures !Orphaned(db, links, t, affected, l.table, l.col, r)
  {
  }

  least lemma DoomedAreGone(run: Run, rank: Table -> nat, marks: Marks, t: Table, affected: seq<Row>, u: Table, r: Row)
    requires Doomed(run.db0, run.Links(), t, affected, u, r)
    requires run.Valid(rank) && run.patch.None? && run.goal == DeleteGoal(run.db0, run.Links(), t, affected)
    requires run.Within(marks) && run.Finished(marks) && r in Rows(run.db0, u)
    requires forall p :: p in Rows(run.db0, t) && p in affected ==> marks.gone(t, p)
    ensures marks.gone(u, r)
  {
    if !(u == t && r in affected) {
      var l, p :| l in run.Links() && l.table == u && l.onDelete == Cascade && p in Rows(run.db0, l.refTable)
         && References(r, l, p) && Doomed(run.db0, run.Links(), t, affected, l.refTable, p);
      DoomedAreGone(run, rank, marks, t, affected, l.refTable, p);
      assert run.Settled(marks, l, Get(p, l.refCol));
      CascadeIsNotCleared(run.db0, run.Links(), t, affected, l, r);
    }
  }

  lemma DeleteRunValid(w: World, rank: Table -> nat, db: Db, t: Table, affected: seq<Row>)
    requires Sound(w, rank, db) && PlainKeys(Links(w.schema))
    requires t in db && forall r :: r in affected ==> r in db[t]
    ensures var run := Run(w, db, None, DeleteGoal(db, Links(w.schema), t, affected));
      run.Valid(rank) && forall r :: r in affected ==> run.SourceRow(t, r)
  {
    var links := Links(w.schema);
    var run := Run(w, db, None, DeleteGoal(db, links, t, affected));
    forall u, p | p in Rows(db, u) && run.goal.gone(u, p)
      ensures run.SourceRow(u, p)
    {
      forall l | l in links && l.refTable == u
        ensures run.Source(l, Get(p, l.refCol))
      {
        forall r | r in Rows(db, l.table) && Eq(Get(r, l.col), Get(p, l.refCol)) && !Get(p, l.refCol).Null?
          ensures l.onDelete == SetNull ==> run.goal.given(l.table, l.col, r)
          ensures l.onDelete == Cascade ==> run.goal.gone(l.table, r)
        {
          assert References(r, l, p) && Doomed(db, links, t, affected, l.refTable, p);
        }
      }
    }
    forall r | r in affected
      ensures run.SourceRow(t, r)
    {
      assert r in Rows(db, t) && run.goal.gone(t, r);
    }
  }

  lemma NothingYet(run: Run, rank: Table -> nat)
    requires run.Valid(rank)
    ensures run.State(run.db0, NO_MARKS)
  {
    forall t | t in run.db0
      ensures run.Image(NO_MARKS)[t] == run.db0[t]
    {
      NothingMarked(run.Links(), run.patch, run.w.now, t, run.db0[t]);
    }
    assert run.Image(NO_MARKS) == run.db0;
  }

  /** A table nothing is marked in. */
  lemma UnmarkedTable(run: Run, rank: Table -> nat, db: Db, marks: Marks, t: Table)
    requires run.State(db, marks) && run.Grows(NO_MARKS, marks, rank, rank(t)) && t in run.db0
    ensures t in db && db[t] == run.db0[t]
  {
    NothingMarked(run.Links(), run.patch, run.w.now, t, run.db0[t]);
    SameMarks(run.Links(), run.patch, run.w.now, marks, NO_MARKS, t, run.db0[t]);
  }

  /** The affected rows of `t` go as well. */
  function GoneAll(marks: Marks, t: Table, f: Filter): Marks {
    Marks((u: Table, r: Row) => marks.gone(u, r) || (u == t && Selects(f, r)), marks.given)
  }

  lemma {:induction false} RejectMarks(links: seq<Link>, now: int, marks: Marks, t: Table, f: Filter, rows: seq<Row>)
    requires forall r :: r in rows ==> !marks.gone(t, r)
    requires forall r, c :: r in rows ==> !marks.given(t, c, r)
    ensures Reject(rows, f) == ImgRows(links, None, now, GoneAll(marks, t, f), t, rows)
  {
    hide Selects, GivenTo, FkOf;
    if rows != [] {
      assert forall r :: r in rows[1..] ==> r in rows;
      RejectMarks(links, now, marks, t, f, rows[1..]);
      assert rows == [rows[0]] + rows[1..] && rows[0] in rows;
      RejectFirst(rows[0], rows[1..], f);
      assert Changes(links, None, GoneAll(marks, t, f), t, rows[0]) == map[];
    }
  }

  /** Marks that agree with the goal on every original row give the goal's image. */
  lemma SameImage(run: Run, a: Marks, b: Marks)
    requires forall t, r :: r in Rows(run.db0, t) ==> a.gone(t, r) == b.gone(t, r)
    requires forall t, r, c :: r in Rows(run.db0, t) && !a.gone(t, r) ==> a.given(t, c, r) == b.given(t, c, r)
    ensures run.Image(a) == run.Image(b)
  {
    forall t | t in run.db0
      ensures run.Image(a)[t] == run.Image(b)[t]
    {
      SameMarks(run.Links(), run.patch, run.w.now, a, b, t, run.db0[t]);
    }
  }

  /** Whatever RESTRICTs a row that is to go is to go itself. */
  ghost predicate RestrictingGo(db: Db, links: seq<Link>, goal: Marks) {
    forall l, p, r :: (l in links && l.onDelete == Restrict && p in Rows(db, l.refTable) && r in Rows(db, l.table)
      && References(r, l, p) && goal.gone(l.refTable, p)) ==> goal.gone(l.table, r)
  }

  lemma FinishedRestricting(run: Run, marks: Marks)
    requires run.patch.None? && run.Finished(marks) && WellFormed(run.w.schema)
    requires forall u, r, c :: r in Rows(run.db0, u) && marks.given(u, c, r) ==>
      exists l :: l in run.Links() && l.table == u && l.col == c && l.onDelete == SetNull
    ensures RestrictingGo(run.db0, run.Links(), marks)
  {
    forall l, p, r | l in run.Links() && l.onDelete == Restrict && p in Rows(run.db0, l.refTable)
      && r in Rows(run.db0, l.table) && References(r, l, p) && marks.gone(l.refTable, p)
      ensures marks.gone(l.table, r)
    {
      assert run.Settled(marks, l, Get(p, l.refCol));
    }
  }

  lemma FinalMarks(run: Run, rank: Table -> nat, marks: Marks, t: Table, f: Filter)
    requires run.Valid(rank) && run.patch.None? && t in run.db0
    requires run.goal == DeleteGoal(run.db0, run.Links(), t, Select(run.db0[t], f))
    requires run.Within(marks) && run.Finished(marks)
    requires forall r :: r in Select(run.db0[t], f) ==> run.SettledRow(marks, t, r)
    ensures run.Image(GoneAll(marks, t, f)) == run.Image(run.goal)
    ensures RestrictingGo(run.db0, run.Links(), run.goal)
  {
    var all, affected := GoneAll(marks, t, f), Select(run.db0[t], f);
    assert run.Within(all);
    assert run.Finished(all) by {
      forall u, r | r in Rows(run.db0, u) && all.gone(u, r)
        ensures run.SettledRow(all, u, r)
      {
        assert run.SettledRow(marks, u, r);
      }
    }
    forall u, r | r in Rows(run.db0, u)
      ensures all.gone(u, r) == run.goal.gone(u, r)
    {
      if run.goal.gone(u, r) {
        DoomedAreGone(run, rank, all, t, affected, u, r);
      }
    }
    forall u, r, c | r in Rows(run.db0, u) && !all.gone(u, r)
      ensures all.given(u, c, r) == run.goal.given(u, c, r)
    {
      if run.goal.given(u, c, r) {
        var l, p :| l in run.Links() && l.table == u && l.col == c && l.onDelete == SetNull
          && p in Rows(run.db0, l.refTable) && References(r, l, p)
          && Doomed(run.db0, run.Links(), t, affected, l.refTable, p);
        DoomedAreGone(run, rank, all, t, affected, l.refTable, p);
        assert run.Settled(all, l, Get(p, l.refCol));
      }
    }
    SameImage(run, all, run.goal);
    FinishedRestricting(run, all);
  }

  /** The database with some of the goal's changes made and no others. */
  ghost predicate PartlyDone(run: Run, db: Db) {
    exists marks :: run.Within(marks) && db == run.Image(marks)
  }

  /** A successful DELETE removes exactly the doomed rows and clears exactly the orphaned references. One that
      fails partway has done some of that and nothing else. */
  lemma DeleteMeaning(w: World, rank: Table -> nat, db: Db, t: Table, f: Filter)
    requires Sound(w, rank, db) && PlainKeys(Links(w.schema)) && t in db
    ensures var out, goal := Deleted(w, db, t, f), DeleteGoal(db, Links(w.schema), t, Select(db[t], f));
      && (out.ok ==> out.db == Img(Links(w.schema), None, w.now, goal, db))
      && PartlyDone(Run(w, db, None, goal), out.db)
  {
    hide Deleted, Img;
    var marks := DeleteMarked(w, rank, db, t, f);
    var run := Run(w, db, None, DeleteGoal(db, Links(w.schema), t, Select(db[t], f)));
    assert Deleted(w, db, t, f).db == run.Image(marks);
  }

  lemma DeleteMarked(w: World, rank: Table -> nat, db: Db, t: Table, f: Filter) returns (marks: Marks)
    requires Sound(w, rank, db) && PlainKeys(Links(w.schema)) && t in db
    ensures var out, goal := Deleted(w, db, t, f), DeleteGoal(db, Links(w.schema), t, Select(db[t], f));
      && (out.ok ==> out.db == Img(Links(w.schema), None, w.now, goal, db))
      && (out.ok ==> RestrictingGo(db, Links(w.schema), goal))
      && out.db == Img(Links(w.schema), None, w.now, marks, db)
      && Run(w, db, None, goal).Within(marks)
  {
    hide Enforced, Run.Grows, Run.SettledRow, Run.SourceRow, ImgRows, Links;
    var affected := Select(db[t], f);
    var run := Run(w, db, None, DeleteGoal(db, Links(w.schema), t, affected));
    DeleteRunValid(w, rank, db, t, affected);
    NothingYet(run, rank);
    var fetched := w.fetch(t, db[t], f);
    FetchedAmong(w, db[t], t, f);
    var below := Enforced(w, db, t, fetched, None, 0);
    marks := EnforcedMarks(run, rank, db, NO_MARKS, t, fetched, 0);
    UnmarkedTable(run, rank, below.db, marks, t);
    if below.ok && w.accepts(t, db[t], Reject(db[t], f)) {
      FinalMarks(run, rank, marks, t, f);
      DroppedTable(run, rank, below.db, marks, t, f);
      marks := run.goal;
    }
  }

  lemma DroppedTable(run: Run, rank: Table -> nat, db: Db, marks: Marks, t: Table, f: Filter)
    requires run.State(db, marks) && run.Grows(NO_MARKS, marks, rank, rank(t)) && t in run.db0 && t in db
    requires run.patch.None? && db[t] == run.db0[t]
    ensures db[t := Reject(db[t], f)] == run.Image(GoneAll(marks, t, f))
  {
    hide ImgRows;
    var all, after := GoneAll(marks, t, f), db[t := Reject(db[t], f)];
    forall u | u in run.db0
      ensures after[u] == run.Image(all)[u]
    {
      if u == t {
        RejectMarks(run.Links(), run.w.now, marks, t, f, db[t]);
      } else {
        SameMarks(run.Links(), run.patch, run.w.now, marks, all, u, run.db0[u]);
      }
    }
  }

  lemma UpdateRunValid(w: World, rank: Table -> nat, db: Db, t: Table, affected: seq<Row>, patch: Patch)
    requires Sound(w, rank, db) && PlainKeys(Links(w.schema))
    ensures var run := Run(w, db, Some(patch), UpdateGoal(Links(w.schema), t, affected, patch));
      run.Valid(rank) && forall r :: r in affected ==> run.SourceRow(t, r)
  {
    var links := Links(w.schema);
    var run := Run(w, db, Some(patch), UpdateGoal(links, t, affected, patch));
    forall p, l, r | p in affected && l in links && l.refTable == t && l.refCol in patch && l.onUpdate != Restrict
      && r in Rows(db, l.table) && Eq(Get(r, l.col), Get(p, l.refCol)) && !Get(p, l.refCol).Null?
      ensures run.goal.given(l.table, l.col, r)
    {
      assert References(r, l, p);
    }
  }

  /** A successful UPDATE patches exactly the affected rows, and exactly the references to them by a column it
      names get the new value or NULL. One that is refused has changed some of those references and nothing else. */
  lemma UpdateMeaning(w: World, rank: Table -> nat, db: Db, t: Table, f: Filter, patch: Patch)
    requires Sound(w, rank, db) && PlainKeys(Links(w.schema)) && t in db
    ensures var out, goal := Updated(w, db, t, f, patch), UpdateGoal(Links(w.schema), t, Select(db[t], f), patch);
      && (out.ok ==> out.db == Img(Links(w.schema), Some(patch), w.now, goal, db)[t := Patched(db[t], f, patch, w.now)])
      && (!out.ok ==> PartlyDone(Run(w, db, Some(patch), goal), out.db))
  {
    hide Updated, Img;
    var marks := UpdateMarked(w, rank, db, t, f, patch);
    var run := Run(w, db, Some(patch), UpdateGoal(Links(w.schema), t, Select(db[t], f), patch));
    assert !Updated(w, db, t, f, patch).ok ==> Updated(w, db, t, f, patch).db == run.Image(marks);
  }

  lemma UpdateMarked(w: World, rank: Table -> nat, db: Db, t: Table, f: Filter, patch: Patch) returns (marks: Marks)
    requires Sound(w, rank, db) && PlainKeys(Links(w.schema)) && t in db
    ensures var out, goal := Updated(w, db, t, f, patch), UpdateGoal(Links(w.schema), t, Select(db[t], f), patch);
      && (out.ok ==> out.db == Img(Links(w.schema), Some(patch), w.now, goal, db)[t := Patched(db[t], f, patch, w.now)])
      && (!out.ok ==> out.db == Img(Links(w.schema), Some(patch), w.now, marks, db))
      && Run(w, db, Some(patch), goal).Within(marks)
  {
    hide Enforced, Run.SourceRow, ImgRows, Links, ChildPasses;
    var affected := Select(db[t], f);
    var run := Run(w, db, Some(patch), UpdateGoal(Links(w.schema), t, affected, patch));
    UpdateRunValid(w, rank, db, t, affected, patch);
    NothingYet(run, rank);
    marks := NO_MARKS;
    if ChildPasses(db, Links(w.schema), t, patch) {
      var fetched := w.fetch(t, db[t], f);
      FetchedAmong(w, db[t], t, f);
      var below := Enforced(w, db, t, fetched, Some(patch), 0);
      marks := EnforcedMarks(run, rank, db, NO_MARKS, t, fetched, 0);
      UnmarkedTable(run, rank, below.db, marks, t);
      if below.ok {
        AllReassigned(run, rank, marks, t, affected, patch);
      }
    }
  }

  lemma {:induction false} AllReassigned(run: Run, rank: Table -> nat, marks: Marks, t: Table, affected: seq<Row>,
                                         patch: Patch)
    requires run.Valid(rank) && run.patch == Some(patch) && run.goal == UpdateGoal(run.Links(), t, affected, patch)
    requires run.Within(marks) && forall r :: r in affected ==> run.SettledRow(marks, t, r)
    ensures run.Image(marks) == run.Image(run.goal)
  {
    forall u, r, c | r in Rows(run.db0, u) && run.goal.given(u, c, r)
      ensures marks.given(u, c, r)
    {
      var l, p :| l in run.Links() && l.table == u && l.col == c && l.refTable == t && l.refCol in patch
        && l.onUpdate != Restrict && p in affected && References(r, l, p);
      assert run.Settled(marks, l, Get(p, l.refCol));
    }
    SameImage(run, marks, run.goal);
  }
}
