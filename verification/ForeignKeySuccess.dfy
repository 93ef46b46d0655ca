/** When a DELETE or UPDATE goes through (src/kumdb.c). */
module ForeignKeySuccess {
  import opened Values
  import opened ForeignKeys
  import Actions = ForeignKeyActions
  import Cycles = ForeignKeyCycles

  // ---------------------------------------------------------------- DELETE, on any schema

  /** One DELETE of the rows `affected` of table `t`. */
  datatype Deletion = Deletion(w: World, db0: Db, t: Table, affected: seq<Row>)
  {
    function Links(): seq<Link> {
      ForeignKeys.Links(w.schema)
    }

    /** The row goes, by a chain of `n` times ON DELETE CASCADE. */
    ghost predicate Goes(n: nat, u: Table, r: Row) {
      if n == 0 then u == t && r in affected
      else exists l, p :: l in Links() && l.table == u && l.onDelete == Cascade && p in Rows(db0, l.refTable)
             && Actions.References(r, l, p) && Goes(n - 1, l.refTable, p)
    }

    /** The row's column is cleared, at the end of a chain of `n` actions: by SET NULL when its parent goes, or
        when the parent's own key is cleared, which ON UPDATE hands down. */
    ghost predicate Fades(n: nat, u: Table, c: Column, r: Row) {
      if n == 0 then false
      else exists l, p :: l in Links() && l.table == u && l.col == c && p in Rows(db0, l.refTable)
             && Actions.References(r, l, p)
             && ((l.onDelete == SetNull && Goes(n - 1, l.refTable, p))
                 || (l.onUpdate != Restrict && Fades(n - 1, l.refTable, l.refCol, p)))
    }

    /** No row that goes, and no key that is cleared, has a child that RESTRICTs it. */
    ghost predicate Unrestricted() {
      && (forall n, l, p, r :: (l in Links() && l.onDelete == Restrict && p in Rows(db0, l.refTable)
            && r in Rows(db0, l.table) && Actions.References(r, l, p)) ==> !Goes(n, l.refTable, p))
      && (forall n, l, p, r :: (l in Links() && l.onUpdate == Restrict && p in Rows(db0, l.refTable)
            && r in Rows(db0, l.table) && Actions.References(r, l, p)) ==> !Fades(n, l.refTable, l.refCol, p))
    }

    /** No chain is as long as the cap with something that refers to its end. */
    ghost predicate WithinCap() {
      forall l, p :: l in Links() && p in Rows(db0, l.refTable) && !Get(p, l.refCol).Null? ==>
        && (Goes(FK_MAX_CASCADE_DEPTH, l.refTable, p) ==> l.onDelete == Restrict)
        && (Fades(FK_MAX_CASCADE_DEPTH, l.refTable, l.refCol, p) ==> l.onUpdate == Restrict)
    }

    /** The tables' own constraints let rows go, and let a column be cleared that the actions clear. */
    ghost predicate Accepted() {
      && (forall u, rows, f :: w.accepts(u, rows, Reject(rows, f)))
      && (forall n, l, r, rows, f :: l in Links() && r in Rows(db0, l.table) && Fades(n, l.table, l.col, r) ==>
            w.accepts(l.table, rows, Patched(rows, f, map[l.col := Null], w.now)))
    }

    ghost predicate Valid() {
      && WellFormed(w.schema) && FetchesOnly(w) && Accepted()
      && Unrestricted() && WithinCap()
    }

    /** The original row is due to go, or to have its column cleared. */
    ghost predicate Due(patch: Option<Patch>, n: nat, u: Table, c: Column, r: Row) {
      r in Rows(db0, u) && if patch.None? then Goes(n, u, r) else Fades(n, u, c, r)
    }

    /** A row met later stems from one that is due. */
    ghost predicate StemsDue(patch: Option<Patch>, n: nat, u: Table, c: Column, x: Row) {
      exists r :: Due(patch, n, u, c, r) && Cycles.ClearedOf(x, r)
    }

    ghost predicate AllDue(patch: Option<Patch>, n: nat, u: Table, rows: seq<Row>) {
      forall x, c :: x in rows && Touches(patch, c) ==> StemsDue(patch, n, u, c, x)
    }

    ghost predicate State(db: Db) {
      Known(w.schema, db) && Cycles.Fades(db0, db)
    }

    /** The rows that still have the value of a due row come from its children. */
    lemma Child(db: Db, l: Link, p: Row, y: Row) returns (r: Row)
      requires State(db) && l in Links() && l.col !in PSEUDO && !Get(p, l.refCol).Null?
      requires y in Rows(db, l.table) && Eq(Get(y, l.col), Get(p, l.refCol))
      ensures r in Rows(db0, l.table) && Cycles.ClearedOf(y, r) && Actions.References(r, l, p)
      ensures Get(y, l.col) == Get(r, l.col)
    {
      hide Compare;
      assert Cycles.Stems(db0, l.table, y);
      r :| r in Rows(db0, l.table) && Cycles.ClearedOf(y, r);
      EqNull(Get(p, l.refCol));
    }

    lemma NotRestricted(n: nat, l: Link, p: Row, r: Row)
      requires Valid() && l in Links() && p in Rows(db0, l.refTable) && r in Rows(db0, l.table)
      requires Actions.References(r, l, p)
      ensures Goes(n, l.refTable, p) ==> l.onDelete != Restrict
      ensures Fades(n, l.refTable, l.refCol, p) ==> l.onUpdate != Restrict
    {
    }

    lemma LinkFacts(l: Link)
      requires Valid() && l in Links()
      ensures l.col !in PSEUDO && l.refCol != "updated_at"
    {
    }

    lemma {:induction false} SetOneOk(db: Db, l: Link, p: Row, n: nat, patch: Option<Patch>)
      requires Valid() && State(db) && l in Links() && !Get(p, l.refCol).Null? && n < FK_MAX_CASCADE_DEPTH
      requires Due(patch, n, l.refTable, l.refCol, p)
      requires if patch.None? then l.onDelete == SetNull else l.onUpdate != Restrict
      ensures var out := SetOne(w, db, l, Get(p, l.refCol), Null, n + 1); out.ok && State(out.db)
      decreases FK_MAX_CASCADE_DEPTH + 1 - (n + 1), 5, 0
    {
      hide Enforced, Patched, Compare, Cycles.ClearedOf, Cycles.Fades, Valid, Unrestricted, WithinCap;
      LinkFacts(l);
      var v := Get(p, l.refCol);
      var f, one := ColumnIs(l.col, v), map[l.col := Null];
      var rows := w.fetch(l.table, db[l.table], f);
      forall x, c | x in rows && Touches(Some(one), c)
        ensures StemsDue(Some(one), n + 1, l.table, c, x)
      {
        FetchedHere(db, l.table, f, x);
        var r := Child(db, l, p, x);
        assert Due(Some(one), n + 1, l.table, c, r);
      }
      EnforcedOk(db, l.table, rows, Some(one), n + 1);
      var below := Enforced(w, db, l.table, rows, Some(one), n + 1);
      if y :| y in below.db[l.table] && Selects(f, y) {
        var r := Child(below.db, l, p, y);
        assert Due(Some(one), n + 1, l.table, l.col, r);
        ClearState(below.db, l, f, n + 1, r);
      } else {
        NoneSelected(below.db[l.table], f, one, w.now);
        DropState(below.db, l.table, f);
      }
    }

    lemma FetchedHere(db: Db, u: Table, f: Filter, x: Row)
      requires Valid() && u in db && x in w.fetch(u, db[u], f)
      ensures x in Rows(db, u) && Selects(f, x)
    {
    }

    lemma ClearState(db: Db, l: Link, f: Filter, n: nat, r: Row)
      requires Valid() && State(db) && l in Links() && r in Rows(db0, l.table) && Fades(n, l.table, l.col, r)
      ensures var rows := Patched(db[l.table], f, map[l.col := Null], w.now);
        w.accepts(l.table, db[l.table], rows) && State(db[l.table := rows])
    {
      hide Selects, Patched, Cycles.ClearedOf;
      var one := map[l.col := Null];
      var after := db[l.table := Patched(db[l.table], f, one, w.now)];
      forall u, x | x in Rows(after, u)
        ensures Cycles.Stems(db, u, x)
      {
        var r := Cycles.Source(db, l.table, f, one, w.now, u, x);
      }
      Cycles.FadesOn(db0, db, after);
    }

    lemma DropState(db: Db, u: Table, f: Filter)
      requires Valid() && State(db) && u in db
      ensures w.accepts(u, db[u], Reject(db[u], f)) && State(db[u := Reject(db[u], f)])
    {
      hide Selects;
      var after := db[u := Reject(db[u], f)];
      forall t, x | x in Rows(after, t)
        ensures Cycles.Stems(db, t, x)
      {
        assert x in Rows(db, t) && Cycles.ClearedOf(x, x);
      }
      Cycles.FadesOn(db0, db, after);
    }

    lemma {:induction false} OneOk(db: Db, l: Link, p: Row, patch: Option<Patch>, n: nat)
      requires Valid() && State(db) && l in Links() && !Get(p, l.refCol).Null? && n <= FK_MAX_CASCADE_DEPTH
      requires Due(patch, n, l.refTable, l.refCol, p) && Clears(patch) && Touches(patch, l.refCol)
      ensures var out := One(w, db, l, Get(p, l.refCol), patch, n); out.ok && State(out.db)
      decreases FK_MAX_CASCADE_DEPTH + 1 - n, 0, 0
    {
      hide Enforced, SetOne, Compare, Cycles.ClearedOf, Cycles.Fades;
      LinkFacts(l);
      var v := Get(p, l.refCol);
      var f, action := ColumnIs(l.col, v), ActionOf(l, patch);
      if action == Restrict {
        if Select(db[l.table], f) != [] {
          var y := Select(db[l.table], f)[0];
          assert y in Select(db[l.table], f);
          var r := Child(db, l, p, y);
          NotRestricted(n, l, p, r);
          assert false;
        }
      } else {
        assert n < FK_MAX_CASCADE_DEPTH;
        if action == SetNull || patch.Some? {
          SetOneOk(db, l, p, n, patch);
        } else {
          var rows := w.fetch(l.table, db[l.table], f);
          forall x, c | x in rows && Touches(None, c)
            ensures StemsDue(None, n + 1, l.table, c, x)
          {
            FetchedHere(db, l.table, f, x);
            var r := Child(db, l, p, x);
            assert Due(None, n + 1, l.table, c, r);
          }
          EnforcedOk(db, l.table, rows, None, n + 1);
          DropState(Enforced(w, db, l.table, rows, None, n + 1).db, l.table, f);
        }
      }
    }

    lemma {:induction false} EachOk(db: Db, refs: seq<Link>, c: Column, u: Table, p: Row, patch: Option<Patch>, n: nat)
      requires Valid() && State(db) && !Get(p, c).Null? && n <= FK_MAX_CASCADE_DEPTH
      requires forall l :: l in refs ==> l in Links() && l.refTable == u && l.refCol == c
      requires Due(patch, n, u, c, p) && Clears(patch) && Touches(patch, c)
      ensures var out := Each(w, db, refs, Get(p, c), patch, n); out.ok && State(out.db)
      decreases FK_MAX_CASCADE_DEPTH + 1 - n, 1, |refs|
    {
      hide One, Valid, Due, Cycles.Fades;
      if refs != [] {
        OneOk(db, refs[0], p, patch, n);
        EachOk(One(w, db, refs[0], Get(p, c), patch, n).db, refs[1..], c, u, p, patch, n);
      }
    }

    lemma {:induction false} EachRowOk(db: Db, refs: seq<Link>, c: Column, u: Table, rows: seq<Row>,
                                       patch: Option<Patch>, n: nat)
      requires Valid() && State(db) && n <= FK_MAX_CASCADE_DEPTH && c != "updated_at"
      requires forall l :: l in refs ==> l in ForeignKeys.Links(w.schema) && l.refTable == u && l.refCol == c
      requires AllDue(patch, n, u, rows) && Clears(patch) && Touches(patch, c)
      ensures var out := EachRow(w, db, refs, c, rows, patch, n); out.ok && State(out.db)
      decreases FK_MAX_CASCADE_DEPTH + 1 - n, 2, |rows|
    {
      hide Each, Valid, Due, Cycles.Fades;
      if rows != [] {
        var v := Get(rows[0], c);
        if v.Null? {
          EachRowOk(db, refs, c, u, rows[1..], patch, n);
        } else {
          assert StemsDue(patch, n, u, c, rows[0]);
          var p :| Due(patch, n, u, c, p) && Cycles.ClearedOf(rows[0], p);
          assert Get(p, c) == v;
          EachOk(db, refs, c, u, p, patch, n);
          EachRowOk(Each(w, db, refs, v, patch, n).db, refs, c, u, rows[1..], patch, n);
        }
      }
    }

    lemma {:induction false} EachColumnOk(db: Db, u: Table, cols: seq<Column>, rows: seq<Row>, patch: Option<Patch>,
                                          n: nat)
      requires Valid() && State(db) && n <= FK_MAX_CASCADE_DEPTH && AllDue(patch, n, u, rows) && Clears(patch)
      ensures var out := EachColumn(w, db, u, cols, rows, patch, n); out.ok && State(out.db)
      decreases FK_MAX_CASCADE_DEPTH + 1 - n, 3, |cols|
    {
      hide EachRow, Valid, AllDue, Cycles.Fades, Found;
      if cols != [] {
        var refs := Found(Links(), u, cols[0]);
        if Touches(patch, cols[0]) {
          if cols[0] == "updated_at" {
            NoneToUpdatedAt(u);
            Actions.EachRowNoRefs(w, db, cols[0], rows, patch, n);
          } else {
            EachRowOk(db, refs, cols[0], u, rows, patch, n);
          }
          EachColumnOk(EachRow(w, db, refs, cols[0], rows, patch, n).db, u, cols[1..], rows, patch, n);
        } else {
          EachColumnOk(db, u, cols[1..], rows, patch, n);
        }
      }
    }

    lemma NoneToUpdatedAt(u: Table)
      requires Valid()
      ensures Found(Links(), u, "updated_at") == []
    {
      Actions.ReferencersNone(Links(), u, "updated_at");
    }

    lemma {:induction false} EnforcedOk(db: Db, u: Table, rows: seq<Row>, patch: Option<Patch>, n: nat)
      requires Valid() && State(db) && n <= FK_MAX_CASCADE_DEPTH && AllDue(patch, n, u, rows) && Clears(patch)
      ensures var out := Enforced(w, db, u, rows, patch, n); out.ok && State(out.db)
      decreases FK_MAX_CASCADE_DEPTH + 1 - n, 4, 0
    {
      hide EachColumn, Valid, AllDue, Cycles.Fades, EnforcedColumns;
      EachColumnOk(db, u, EnforcedColumns(w.schema, u), rows, patch, n);
    }
  }

  lemma {:induction false} NoneSelected(rows: seq<Row>, f: Filter, one: Patch, now: int)
    requires forall r :: r in rows ==> !Selects(f, r)
    ensures Patched(rows, f, one, now) == rows == Reject(rows, f)
  {
    hide Selects;
    if rows != [] {
      NoneSelected(rows[1..], f, one, now);
      assert rows == [rows[0]] + rows[1..];
    }
  }

  ghost function DeletionOf(w: World, db: Db, t: Table, f: Filter): Deletion
    requires t in db
  {
    Deletion(w, db, t, Select(db[t], f))
  }

  /** On any schema, cycles included, a DELETE goes through when no row it comes to has a child that RESTRICTs it, no
      chain of actions exceeds the cap and the tables' own constraints let rows go and references be cleared. */
  lemma DeleteGoesThrough(w: World, db: Db, t: Table, f: Filter)
    requires Known(w.schema, db) && t in db && DeletionOf(w, db, t, f).Valid()
    ensures Deleted(w, db, t, f).ok
  {
    hide Enforced, Cycles.ClearedOf, Cycles.Fades, Selects;
    var d := DeletionOf(w, db, t, f);
    hide Deletion.Valid;
    Cycles.FadesNot(db);
    var rows := w.fetch(t, db[t], f);
    forall x, c | x in rows && Touches(None, c)
      ensures d.StemsDue(None, 0, t, c, x)
    {
      d.FetchedHere(db, t, f, x);
      assert x in Select(db[t], f) && d.Due(None, 0, t, c, x);
      ClearedSelf(x);
    }
    d.EnforcedOk(db, t, rows, None, 0);
    d.DropState(Enforced(w, db, t, rows, None, 0).db, t, f);
  }

  lemma ClearedSelf(x: Row)
    ensures Cycles.ClearedOf(x, x)
  {
  }

  // ---------------------------------------------------------------- DELETE without cycles

  /** A chain leads down by one rank a step. */
  lemma {:induction false} GoingDescends(d: Deletion, rank: Table -> nat, n: nat, u: Table, r: Row)
    requires Ranked(d.w.schema, rank) && d.Goes(n, u, r)
    ensures rank(u) + n <= rank(d.t)
  {
    hide Actions.References;
    if n > 0 {
      var l, p :| l in d.Links() && l.table == u && l.onDelete == Cascade && p in Rows(d.db0, l.refTable)
        && Actions.References(r, l, p) && d.Goes(n - 1, l.refTable, p);
      GoingDescends(d, rank, n - 1, l.refTable, p);
    }
  }

  lemma {:induction false} FadingDescends(d: Deletion, rank: Table -> nat, n: nat, u: Table, c: Column, r: Row)
    requires Ranked(d.w.schema, rank) && d.Fades(n, u, c, r)
    ensures rank(u) + n <= rank(d.t)
  {
    hide Actions.References, Deletion.Goes;
    var l, p :| l in d.Links() && l.table == u && l.col == c && p in Rows(d.db0, l.refTable)
      && Actions.References(r, l, p)
      && ((l.onDelete == SetNull && d.Goes(n - 1, l.refTable, p))
          || (l.onUpdate != Restrict && d.Fades(n - 1, l.refTable, l.refCol, p)));
    if d.Goes(n - 1, l.refTable, p) {
      GoingDescends(d, rank, n - 1, l.refTable, p);
    } else {
      FadingDescends(d, rank, n - 1, l.refTable, l.refCol, p);
    }
  }

  lemma LowRankWithinCap(d: Deletion, rank: Table -> nat)
    requires Ranked(d.w.schema, rank) && rank(d.t) <= FK_MAX_CASCADE_DEPTH
    ensures d.WithinCap()
  {
    hide Deletion.Goes, Deletion.Fades;
    forall l, p | l in d.Links() && p in Rows(d.db0, l.refTable)
      ensures !d.Goes(FK_MAX_CASCADE_DEPTH, l.refTable, p)
      ensures !d.Fades(FK_MAX_CASCADE_DEPTH, l.refTable, l.refCol, p)
    {
      if d.Goes(FK_MAX_CASCADE_DEPTH, l.refTable, p) {
        GoingDescends(d, rank, FK_MAX_CASCADE_DEPTH, l.refTable, p);
      }
      if d.Fades(FK_MAX_CASCADE_DEPTH, l.refTable, l.refCol, p) {
        FadingDescends(d, rank, FK_MAX_CASCADE_DEPTH, l.refTable, l.refCol, p);
      }
    }
  }

  lemma {:induction false} GoingIsDoomed(d: Deletion, n: nat, u: Table, r: Row)
    requires d.Goes(n, u, r)
    ensures Actions.Doomed(d.db0, d.Links(), d.t, d.affected, u, r)
  {
    if n > 0 {
      var l, p :| l in d.Links() && l.table == u && l.onDelete == Cascade && p in Rows(d.db0, l.refTable)
        && Actions.References(r, l, p) && d.Goes(n - 1, l.refTable, p);
      GoingIsDoomed(d, n - 1, l.refTable, p);
    }
  }

  /** A row that RESTRICTs one the DELETE is to remove. */
  ghost predicate Restricting(db: Db, links: seq<Link>, t: Table, affected: seq<Row>, u: Table, r: Row) {
    exists l, p :: l in links && l.table == u && l.onDelete == Restrict && p in Rows(db, l.refTable)
      && Actions.References(r, l, p) && Actions.Doomed(db, links, t, affected, l.refTable, p)
  }

  lemma NoneRestricting(d: Deletion)
    requires Actions.PlainKeys(d.Links())
    requires forall u, r :: r in Rows(d.db0, u) ==> !Restricting(d.db0, d.Links(), d.t, d.affected, u, r)
    ensures d.Unrestricted()
  {
    forall n, l, p, r | l in d.Links() && p in Rows(d.db0, l.refTable) && r in Rows(d.db0, l.table)
      && Actions.References(r, l, p)
      ensures l.onDelete == Restrict ==> !d.Goes(n, l.refTable, p)
      ensures !d.Fades(n, l.refTable, l.refCol, p)
    {
      if d.Goes(n, l.refTable, p) {
        GoingIsDoomed(d, n, l.refTable, p);
      }
    }
  }

  /** On a schema without cycles, at most as deep as the cap, with keys that are no foreign keys themselves: a DELETE
      goes through when nothing RESTRICTs a row it is to remove; and if it goes through, whatever does is to be removed
      itself, and whether that comes first is a matter of the order of columns and tables. */
  lemma DeleteAllowedExactly(w: World, rank: Table -> nat, db: Db, t: Table, f: Filter)
    requires Sound(w, rank, db) && Actions.PlainKeys(Links(w.schema)) && t in db
    requires rank(t) <= FK_MAX_CASCADE_DEPTH && DeletionOf(w, db, t, f).Accepted()
    ensures var links, affected := Links(w.schema), Select(db[t], f);
      && ((forall u, r :: r in Rows(db, u) ==> !Restricting(db, links, t, affected, u, r)) ==> Deleted(w, db, t, f).ok)
      && (Deleted(w, db, t, f).ok ==>
            forall u, r :: r in Rows(db, u) && Restricting(db, links, t, affected, u, r) ==>
              Actions.Doomed(db, links, t, affected, u, r))
  {
    hide Deleted, Deletion.Goes, Deletion.Fades, Deletion.Accepted;
    var d, links, affected := DeletionOf(w, db, t, f), Links(w.schema), Select(db[t], f);
    if forall u, r :: r in Rows(db, u) ==> !Restricting(db, links, t, affected, u, r) {
      NoneRestricting(d);
      LowRankWithinCap(d, rank);
      DeleteGoesThrough(w, db, t, f);
    }
    if Deleted(w, db, t, f).ok {
      var marks := Actions.DeleteMarked(w, rank, db, t, f);
      forall u, r | r in Rows(db, u) && Restricting(db, links, t, affected, u, r)
        ensures Actions.Doomed(db, links, t, affected, u, r)
      {
        var l, p :| l in links && l.table == u && l.onDelete == Restrict && p in Rows(db, l.refTable)
          && Actions.References(r, l, p) && Actions.Doomed(db, links, t, affected, l.refTable, p);
        assert Actions.DeleteGoal(db, links, t, affected).gone(l.refTable, p);
        assert Actions.DeleteGoal(db, links, t, affected).gone(l.table, r);
      }
    }
  }

  /** Two keys of one child table that refer to the same parent row. */
  function TwoKeys(first: Action, second: Action): Schema {
    [TableDef("p", []),
     TableDef("c", [ColumnDef("a", Some(Fk("p", "id", first, Restrict)), None),
                    ColumnDef("b", Some(Fk("p", "id", second, Restrict)), None)])]
  }

  const PARENT := Row(1, 0, 0, map[])
  const CHILD := Row(1, 0, 0, map["a" := Int(1), "b" := Int(1)])
  const FAMILY: Db := map["p" := [PARENT], "c" := [CHILD]]

  function Willing(schema: Schema): World {
    World(schema, (t, before, after) => true, ScanFetch(), 0)
  }

  /** What becomes of the family when the parent is to be deleted. */
  function FamilyDeleted(first: Action, second: Action): Result {
    TwoKeysLinks(first, second);
    Deleted(Willing(TwoKeys(first, second)), FAMILY, "p", ColumnIs("id", Int(1)))
  }

  /** The order decides: a child with one key that CASCADEs and one that RESTRICTs goes with its parent when the
      first column is the one that CASCADEs, and keeps it when it is the other. */
  lemma OrderDecides()
    ensures FamilyDeleted(Cascade, Restrict) == Result(true, map["p" := [], "c" := []])
    ensures FamilyDeleted(Restrict, Cascade) == Result(false, FAMILY)
  {
    CascadeFirst();
    RestrictFirst();
  }

  lemma TwoKeysLinks(first: Action, second: Action)
    ensures var a, b := Link("c", "a", "p", "id", first, Restrict), Link("c", "b", "p", "id", second, Restrict);
      && Links(TwoKeys(first, second)) == [a, b]
      && Found([a, b], "p", "id") == [a, b]
      && (forall t, c :: t != "p" || c != "id" ==> Found([a, b], t, c) == [])
  {
    var a, b := Link("c", "a", "p", "id", first, Restrict), Link("c", "b", "p", "id", second, Restrict);
    var schema := TwoKeys(first, second);
    var cols := schema[1].columns;
    assert ColumnLinks("c", cols[2..]) == [] && cols[1..][1..] == cols[2..];
    assert ColumnLinks("c", cols[1..]) == [b] && ColumnLinks("c", cols) == [a, b];
    assert schema[1..][1..] == [] && Links([]) == [];
    assert Links(schema[1..]) == [a, b] && Links(schema) == [a, b];
    forall t, c
      ensures Referencers([a, b], t, c) == if t == "p" && c == "id" then [a, b] else []
    {
      assert [a, b][1..] == [b] && [b][1..] == [];
      assert Referencers([], t, c) == [];
      assert Referencers([b], t, c) == if t == "p" && c == "id" then [b] else [];
    }
  }

  lemma RestrictFirst()
    ensures FamilyDeleted(Restrict, Cascade) == Result(false, FAMILY)
  {
    var w := Willing(TwoKeys(Restrict, Cascade));
    var a := Link("c", "a", "p", "id", Restrict, Restrict);
    TwoKeysLinks(Restrict, Cascade);
    FamilySelects();
    hide Links, Found, Select, Get;
    var refs := Found(Links(w.schema), "p", "id");
    assert One(w, FAMILY, a, Int(1), None, 0) == Result(false, FAMILY);
    hide One;
    assert Each(w, FAMILY, refs, Int(1), None, 0) == Result(false, FAMILY);
    hide Each;
    assert EachRow(w, FAMILY, refs, "id", [PARENT], None, 0) == Result(false, FAMILY);
    hide EachRow;
    assert EachColumn(w, FAMILY, "p", PSEUDO, [PARENT], None, 0) == Result(false, FAMILY);
    hide EachColumn;
    assert Enforced(w, FAMILY, "p", [PARENT], None, 0) == Result(false, FAMILY);
  }

  lemma FamilySelects()
    ensures Select([PARENT], ColumnIs("id", Int(1))) == [PARENT] && Reject([PARENT], ColumnIs("id", Int(1))) == []
    ensures forall c :: c == "a" || c == "b" ==>
      Select([CHILD], ColumnIs(c, Int(1))) == [CHILD] && Reject([CHILD], ColumnIs(c, Int(1))) == []
    ensures forall f :: Select([], f) == [] && Reject([], f) == []
    ensures Get(PARENT, "id") == Int(1)
  {
    assert [PARENT][1..] == [] && [CHILD][1..] == [];
    assert Selects(ColumnIs("id", Int(1)), PARENT);
    forall c | c == "a" || c == "b"
      ensures Selects(ColumnIs(c, Int(1)), CHILD)
    {
    }
  }

  const CHILDLESS: Db := map["p" := [PARENT], "c" := []]

  lemma CascadeFirst()
    ensures FamilyDeleted(Cascade, Restrict) == Result(true, map["p" := [], "c" := []])
  {
    var w, f := Willing(TwoKeys(Cascade, Restrict)), ColumnIs("id", Int(1));
    var a, b := Link("c", "a", "p", "id", Cascade, Restrict), Link("c", "b", "p", "id", Restrict, Restrict);
    TwoKeysLinks(Cascade, Restrict);
    hide Links, Found, Select, Reject, Get, EachColumn, EachRow, Each, One, Enforced;
    CascadeTakesChild(w, a);
    NothingRestricts(w, b);
    CascadeFirstEach(w, CHILDLESS, a, b);
    CascadeFirstColumns(w, CHILDLESS, [a, b]);
    assert FamilyDeleted(Cascade, Restrict) == Deleted(w, FAMILY, "p", f);
    hide *;
    FamilyQueries(w, f);
    DeletedFrom(w, FAMILY, "p", f, CHILDLESS);
  }

  lemma FamilyQueries(w: World, f: Filter)
    requires w == Willing(TwoKeys(Cascade, Restrict)) && f == ColumnIs("id", Int(1))
    ensures EnforcedColumns(w.schema, "p") == PSEUDO && w.fetch("p", [PARENT], f) == [PARENT]
    ensures FAMILY.Keys == CHILDLESS.Keys == {"p", "c"} && FAMILY["p"] == CHILDLESS["p"] == [PARENT]
    ensures w.accepts("p", [PARENT], Reject([PARENT], f))
    ensures CHILDLESS["p" := Reject([PARENT], f)] == map["p" := [], "c" := []]
  {
    FamilySelects();
  }

  /** What enforcement leaves, without the rows deleted. */
  lemma DeletedFrom(w: World, db: Db, t: Table, f: Filter, left: Db)
    requires Known(w.schema, db) && t in db && t in left
    requires EachColumn(w, db, t, EnforcedColumns(w.schema, t), w.fetch(t, db[t], f), None, 0) == Result(true, left)
    requires w.accepts(t, left[t], Reject(left[t], f))
    ensures Deleted(w, db, t, f) == Result(true, left[t := Reject(left[t], f)])
  {
    hide EachColumn, Reject, EnforcedColumns;
  }

  lemma CascadeTakesChild(w: World, a: Link)
    requires w == Willing(TwoKeys(Cascade, Restrict)) && a == Link("c", "a", "p", "id", Cascade, Restrict)
    requires a in Links(w.schema) && Known(w.schema, FAMILY)
    ensures One(w, FAMILY, a, Int(1), None, 0) == Result(true, CHILDLESS)
  {
    NobodyRefers(w);
    hide *;
    FamilyCascades(w);
    OneCascade(w, FAMILY, a, Int(1), 0, FAMILY);
  }

  lemma NobodyRefers(w: World)
    requires w == Willing(TwoKeys(Cascade, Restrict)) && Known(w.schema, FAMILY)
    ensures Enforced(w, FAMILY, "c", [CHILD], None, 1) == Result(true, FAMILY)
  {
    TwoKeysLinks(Cascade, Restrict);
    hide Links, EachColumn, EnforcedColumns;
    Actions.EachColumnNoRefs(w, FAMILY, "c", EnforcedColumns(w.schema, "c"), [CHILD], None, 1);
  }

  lemma FamilyCascades(w: World)
    requires w == Willing(TwoKeys(Cascade, Restrict))
    ensures FAMILY.Keys == {"p", "c"} && FAMILY["c"] == [CHILD]
    ensures w.fetch("c", [CHILD], ColumnIs("a", Int(1))) == [CHILD]
    ensures w.accepts("c", [CHILD], Reject([CHILD], ColumnIs("a", Int(1))))
    ensures FAMILY["c" := Reject([CHILD], ColumnIs("a", Int(1)))] == CHILDLESS
  {
    FamilySelects();
  }

  /** A cascade whose children's own references have been dealt with. */
  lemma OneCascade(w: World, db: Db, l: Link, v: Value, depth: nat, below: Db)
    requires Known(w.schema, db) && l in Links(w.schema) && depth < FK_MAX_CASCADE_DEPTH && l.onDelete == Cascade
    requires l.table in below
    requires var f := ColumnIs(l.col, v);
      && Enforced(w, db, l.table, w.fetch(l.table, db[l.table], f), None, depth + 1) == Result(true, below)
      && w.accepts(l.table, below[l.table], Reject(below[l.table], f))
    ensures One(w, db, l, v, None, depth)
         == Result(true, below[l.table := Reject(below[l.table], ColumnIs(l.col, v))])
  {
    hide Enforced, Links, Reject;
  }

  lemma NothingRestricts(w: World, b: Link)
    requires b == Link("c", "b", "p", "id", Restrict, Restrict) && b in Links(w.schema) && Known(w.schema, CHILDLESS)
    ensures One(w, CHILDLESS, b, Int(1), None, 0) == Result(true, CHILDLESS)
  {
    hide Links;
  }

  lemma CascadeFirstEach(w: World, left: Db, a: Link, b: Link)
    requires Known(w.schema, FAMILY) && Known(w.schema, left) && a in Links(w.schema) && b in Links(w.schema)
    requires One(w, FAMILY, a, Int(1), None, 0) == Result(true, left)
    requires One(w, left, b, Int(1), None, 0) == Result(true, left)
    ensures Each(w, FAMILY, [a, b], Int(1), None, 0) == Result(true, left)
  {
    hide One, Links;
    assert [a, b][1..] == [b] && [b][1..] == [];
    assert Each(w, left, [], Int(1), None, 0) == Result(true, left);
    assert Each(w, left, [b], Int(1), None, 0) == Result(true, left);
  }

  lemma CascadeFirstColumns(w: World, left: Db, refs: seq<Link>)
    requires Known(w.schema, FAMILY) && Known(w.schema, left) && forall l :: l in refs ==> l in Links(w.schema)
    requires Found(Links(w.schema), "p", "id") == refs && Each(w, FAMILY, refs, Int(1), None, 0) == Result(true, left)
    requires forall c :: c != "id" ==> Found(Links(w.schema), "p", c) == []
    ensures EachColumn(w, FAMILY, "p", PSEUDO, [PARENT], None, 0) == Result(true, left)
  {
    hide Each, Links, Found;
    assert [PARENT][1..] == [];
    assert EachRow(w, left, refs, "id", [], None, 0) == Result(true, left);
    assert EachRow(w, FAMILY, refs, "id", [PARENT], None, 0) == Result(true, left);
    Actions.EachRowNoRefs(w, left, "created_at", [PARENT], None, 0);
    Actions.EachRowNoRefs(w, left, "updated_at", [PARENT], None, 0);
    hide EachRow;
    assert EachColumn(w, left, "p", [], [PARENT], None, 0) == Result(true, left);
    assert PSEUDO[1..] == ["created_at", "updated_at"] && ["created_at", "updated_at"][1..] == ["updated_at"];
    assert ["updated_at"][1..] == [];
    assert EachColumn(w, left, "p", ["updated_at"], [PARENT], None, 0) == Result(true, left);
    assert EachColumn(w, left, "p", ["created_at", "updated_at"], [PARENT], None, 0) == Result(true, left);
  }

  // ---------------------------------------------------------------- INSERT

  /** An INSERT goes through exactly when each foreign key given has a parent and the table accepts the row; then the
      row is there, last, with every field as given and every omitted one as its DEFAULT says. */
  lemma InsertAllowedExactly(w: World, db: Db, t: Table, r: Row)
    requires WellFormed(w.schema) && t in db
    ensures var out, stored := Added(w, db, t, r), Stored(w.schema, t, r);
      && (out.ok <==>
            && w.accepts(t, db[t], db[t] + [stored])
            && forall l :: l in Links(w.schema) && l.table == t && l.col in r.fields && !r.fields[l.col].Null? ==>
                 exists p :: p in Rows(db, l.refTable) && Eq(Get(p, l.refCol), r.fields[l.col]))
      && out.db == (if out.ok then db[t := db[t] + [stored]] else db)
      && (forall c :: c in r.fields ==> c in stored.fields && stored.fields[c] == r.fields[c])
      && (forall c :: c !in r.fields ==>
            (c in stored.fields <==> DefaultOf(w.schema, t, c).Some?)
            && (c in stored.fields ==> stored.fields[c] == DefaultOf(w.schema, t, c).value))
  {
    hide Get, Compare, Completed;
    forall c
      ensures c in Stored(w.schema, t, r).fields <==> c in r.fields || DefaultOf(w.schema, t, c).Some?
      ensures c in r.fields ==> Stored(w.schema, t, r).fields[c] == r.fields[c]
      ensures c !in r.fields && DefaultOf(w.schema, t, c).Some? ==>
        Stored(w.schema, t, r).fields[c] == DefaultOf(w.schema, t, c).value
    {
      CompletedIs(ColumnsOf(w.schema, t), r.fields, c);
    }
    forall l | l in Links(w.schema) && l.table == t
      ensures FkOf(Links(w.schema), t, l.col) == Some(l)
    {
      Actions.FkIs(Links(w.schema), l);
    }
    if ChildPasses(db, Links(w.schema), t, r.fields) {
      forall l | l in Links(w.schema) && l.table == t && l.col in r.fields && !r.fields[l.col].Null?
        ensures HasParent(db, l, r.fields[l.col])
      {
        assert ValueHasParent(db, l, r.fields[l.col]);
      }
    }
  }

  // ---------------------------------------------------------------- UPDATE, on any schema

  ghost predicate AcceptsPatches(w: World) {
    forall u, rows, f, patch :: w.accepts(u, rows, Patched(rows, f, patch, w.now))
  }

  /** One UPDATE of table `t`. */
  datatype Change = Change(w: World, db0: Db, t: Table)
  {
    function Links(): seq<Link> {
      ForeignKeys.Links(w.schema)
    }

    /** Column `c` of `u` follows column `c0` of `t` through a chain of `n` references that do not RESTRICT. */
    ghost predicate Follows(c0: Column, n: nat, u: Table, c: Column) {
      if n == 0 then u == t && c == c0
      else exists l :: l in Links() && l.table == u && l.col == c && l.onUpdate != Restrict
             && Follows(c0, n - 1, l.refTable, l.refCol)
    }

    /** No row RESTRICTs the value at the end of such a chain, and none is as long as the cap. */
    ghost predicate Unblocked(c0: Column, v: Value) {
      forall n: nat, l :: n <= FK_MAX_CASCADE_DEPTH && l in Links() && Follows(c0, n, l.refTable, l.refCol) ==>
        if l.onUpdate == Restrict then NoneHas(db0, l, v) else n < FK_MAX_CASCADE_DEPTH
    }

    ghost predicate Fine(n: nat, u: Table, c: Column, v: Value) {
      v.Null? || exists c0, x :: (v == x || Eq(v, x)) && Follows(c0, n, u, c) && Unblocked(c0, x)
    }

    ghost predicate Valid() {
      WellFormed(w.schema) && FetchesOnly(w) && AcceptsPatches(w)
    }

    /** The columns that RESTRICT hold what they held: nothing ever writes them. */
    ghost predicate State(db: Db) {
      Known(w.schema, db)
      && forall l :: l in Links() && l.onUpdate == Restrict ==> ColValues(db, l) == ColValues(db0, l)
    }

    lemma SameHolders(db: Db, l: Link, v: Value)
      requires State(db) && l in Links() && l.onUpdate == Restrict
      ensures NoneHas(db, l, v) <==> NoneHas(db0, l, v)
    {
      hide Compare, Get;
      if NoneHas(db0, l, v) {
        forall x | x in Rows(db, l.table)
          ensures !Eq(Get(x, l.col), v)
        {
          assert Get(x, l.col) in ColValues(db0, l);
        }
      }
      if NoneHas(db, l, v) {
        forall x | x in Rows(db0, l.table)
          ensures !Eq(Get(x, l.col), v)
        {
          assert Get(x, l.col) in ColValues(db, l);
        }
      }
    }

    lemma EqualValues(l: Link, v: Value, x: Value)
      requires Eq(v, x) && NoneHas(db0, l, x)
      ensures NoneHas(db0, l, v)
    {
      hide Compare, Get;
      forall r | r in Rows(db0, l.table)
        ensures !Eq(Get(r, l.col), v)
      {
        if Eq(Get(r, l.col), v) {
          EqTransitive(Get(r, l.col), v, x);
        }
      }
    }

    lemma WriteState(db: Db, l: Link, f: Filter, newV: Value)
      requires Valid() && State(db) && l in Links() && l.onUpdate != Restrict
      ensures State(db[l.table := Patched(db[l.table], f, map[l.col := newV], w.now)])
    {
      hide Selects, AcceptsPatches, FetchesOnly;
      var rows := Patched(db[l.table], f, map[l.col := newV], w.now);
      var after := db[l.table := rows];
      forall m | m in Links() && m.onUpdate == Restrict && m.table == l.table
        ensures ColValues(after, m) == ColValues(db, m)
      {
        assert m.col != l.col && m.col !in PSEUDO;
        assert forall i :: 0 <= i < |rows| ==> Get(rows[i], m.col) == Get(db[l.table][i], m.col);
        SameColumn(db[l.table], rows, m.col);
      }
    }

    lemma SameColumn(a: seq<Row>, b: seq<Row>, c: Column)
      requires |a| == |b| && forall i :: 0 <= i < |a| ==> Get(a[i], c) == Get(b[i], c)
      ensures (set r | r in a :: Get(r, c)) == (set r | r in b :: Get(r, c))
    {
      hide Get;
      forall i | 0 <= i < |a|
        ensures Get(a[i], c) in (set r | r in b :: Get(r, c)) && Get(b[i], c) in (set r | r in a :: Get(r, c))
      {
        assert a[i] in a && b[i] in b;
      }
    }

    /** The rows a value is handed down to are as fine as the value. */
    lemma NextFine(l: Link, v: Value, n: nat, u: Value)
      requires l in Links() && l.onUpdate != Restrict && Eq(u, v) && !v.Null? && Fine(n, l.refTable, l.refCol, v)
      ensures Fine(n + 1, l.table, l.col, u)
    {
      hide Compare, Unblocked;
      var c0, x :| (v == x || Eq(v, x)) && Follows(c0, n, l.refTable, l.refCol) && Unblocked(c0, x);
      if v != x {
        EqTransitive(u, v, x);
      }
      assert Follows(c0, n + 1, l.table, l.col);
    }

    lemma FineMeans(l: Link, v: Value, n: nat)
      requires l in Links() && !v.Null? && n <= FK_MAX_CASCADE_DEPTH && Fine(n, l.refTable, l.refCol, v)
      ensures if l.onUpdate == Restrict then NoneHas(db0, l, v) else n < FK_MAX_CASCADE_DEPTH
    {
      hide Compare, Follows, NoneHas;
      var c0, x :| (v == x || Eq(v, x)) && Follows(c0, n, l.refTable, l.refCol) && Unblocked(c0, x);
      if l.onUpdate == Restrict && v != x {
        EqualValues(l, v, x);
      }
    }

    lemma {:induction false} SetOneOk(db: Db, l: Link, v: Value, newV: Value, n: nat)
      requires Valid() && State(db) && l in Links() && l.onUpdate != Restrict && !v.Null? && n <= FK_MAX_CASCADE_DEPTH
      ensures var out := SetOne(w, db, l, v, newV, n + 1);
        State(out.db) && (Fine(n, l.refTable, l.refCol, v) ==> out.ok)
      decreases FK_MAX_CASCADE_DEPTH + 1 - (n + 1), 5, 0
    {
      hide Enforced, Patched, Compare, Valid, State, Fine, Selects;
      KnownState(db);
      if n + 1 <= FK_MAX_CASCADE_DEPTH {
        var f, one := ColumnIs(l.col, v), map[l.col := newV];
        var rows := w.fetch(l.table, db[l.table], f);
        EnforcedOk(db, l.table, rows, one, n + 1);
        var below := Enforced(w, db, l.table, rows, Some(one), n + 1);
        KnownState(below.db);
        WriteState(below.db, l, f, newV);
        Accepts(l.table, below.db[l.table], f, one);
        if Fine(n, l.refTable, l.refCol, v) {
          forall x | x in rows
            ensures Fine(n + 1, l.table, l.col, Get(x, l.col))
          {
            FetchedHas(db, l, v, x);
            NextFine(l, v, n, Get(x, l.col));
          }
        }
      } else if Fine(n, l.refTable, l.refCol, v) {
        FineMeans(l, v, n);
      }
    }

    lemma KnownState(db: Db)
      requires State(db)
      ensures Known(w.schema, db)
    {
    }

    lemma Accepts(u: Table, rows: seq<Row>, f: Filter, patch: Patch)
      requires Valid()
      ensures w.accepts(u, rows, Patched(rows, f, patch, w.now))
    {
    }

    lemma FetchedHas(db: Db, l: Link, v: Value, x: Row)
      requires Valid() && l.table in db && x in w.fetch(l.table, db[l.table], ColumnIs(l.col, v))
      ensures Eq(Get(x, l.col), v)
    {
    }

    lemma {:induction false} OneOk(db: Db, l: Link, v: Value, patch: Patch, n: nat)
      requires Valid() && State(db) && l in Links() && !v.Null? && n <= FK_MAX_CASCADE_DEPTH
      ensures var out := One(w, db, l, v, Some(patch), n);
        && State(out.db) && (Fine(n, l.refTable, l.refCol, v) ==> out.ok)
        && (out.ok && l.onUpdate == Restrict ==> NoneHas(db0, l, v))
      decreases FK_MAX_CASCADE_DEPTH + 1 - n, 0, 0
    {
      hide SetOne, Enforced, Compare, Valid, State, Fine, Get;
      KnownState(db);
      if l.onUpdate == Restrict {
        SelectsNone(db, l, v);
        SameHolders(db, l, v);
        if Fine(n, l.refTable, l.refCol, v) {
          FineMeans(l, v, n);
        }
      } else {
        SetOneOk(db, l, v, if l.onUpdate == SetNull then Null else NewOf(Some(patch), l.refCol), n);
      }
    }

    lemma SelectsNone(db: Db, l: Link, v: Value)
      requires l.table in db
      ensures Select(db[l.table], ColumnIs(l.col, v)) == [] <==> NoneHas(db, l, v)
    {
      hide Compare, Get;
      var found := Select(db[l.table], ColumnIs(l.col, v));
      if found != [] {
        assert found[0] in found;
      }
    }

    lemma {:induction false} EachOk(db: Db, refs: seq<Link>, u: Table, c: Column, v: Value, patch: Patch, n: nat)
      requires Valid() && State(db) && !v.Null? && n <= FK_MAX_CASCADE_DEPTH
      requires forall l :: l in refs ==> l in ForeignKeys.Links(w.schema) && l.refTable == u && l.refCol == c
      ensures var out := Each(w, db, refs, v, Some(patch), n);
        && State(out.db) && (Fine(n, u, c, v) ==> out.ok)
        && (out.ok ==> forall l :: l in refs && l.onUpdate == Restrict ==> NoneHas(db0, l, v))
      decreases FK_MAX_CASCADE_DEPTH + 1 - n, 1, |refs|
    {
      hide One, Valid, State, Fine, NoneHas;
      KnownState(db);
      if refs != [] {
        OneOk(db, refs[0], v, patch, n);
        var first := One(w, db, refs[0], v, Some(patch), n);
        KnownState(first.db);
        EachOk(first.db, refs[1..], u, c, v, patch, n);
      }
    }

    lemma {:induction false} EachRowOk(db: Db, refs: seq<Link>, u: Table, c: Column, rows: seq<Row>, patch: Patch,
                                       n: nat)
      requires Valid() && State(db) && n <= FK_MAX_CASCADE_DEPTH
      requires forall l :: l in refs ==> l in ForeignKeys.Links(w.schema) && l.refTable == u && l.refCol == c
      ensures var out := EachRow(w, db, refs, c, rows, Some(patch), n);
        && State(out.db) && ((forall x :: x in rows ==> Fine(n, u, c, Get(x, c))) ==> out.ok)
        && (out.ok ==> forall l, x :: l in refs && l.onUpdate == Restrict && x in rows && !Get(x, c).Null? ==>
                         NoneHas(db0, l, Get(x, c)))
      decreases FK_MAX_CASCADE_DEPTH + 1 - n, 2, |rows|
    {
      hide Each, Valid, State, Fine, NoneHas, Get;
      KnownState(db);
      if rows != [] {
        var v := Get(rows[0], c);
        var first := if v.Null? then Result(true, db) else Each(w, db, refs, v, Some(patch), n);
        if !v.Null? {
          EachOk(db, refs, u, c, v, patch, n);
        }
        KnownState(first.db);
        EachRowOk(first.db, refs, u, c, rows[1..], patch, n);
        assert rows[0] in rows && forall x :: x in rows[1..] ==> x in rows;
      }
    }

    lemma {:induction false} EachColumnOk(db: Db, u: Table, cols: seq<Column>, rows: seq<Row>, patch: Patch, n: nat)
      requires Valid() && State(db) && n <= FK_MAX_CASCADE_DEPTH
      ensures var out := EachColumn(w, db, u, cols, rows, Some(patch), n);
        && State(out.db) && ((forall x, c :: x in rows && c in patch ==> Fine(n, u, c, Get(x, c))) ==> out.ok)
        && (out.ok ==> forall c, l, x :: (c in cols && c in patch && l in Found(Links(), u, c)
              && l.onUpdate == Restrict && x in rows && !Get(x, c).Null?) ==> NoneHas(db0, l, Get(x, c)))
      decreases FK_MAX_CASCADE_DEPTH + 1 - n, 3, |cols|
    {
      hide EachRow, Valid, State, Fine, NoneHas, Get, Found;
      KnownState(db);
      if cols != [] {
        var c := cols[0];
        var refs := Found(Links(), u, c);
        var first := if c in patch then EachRow(w, db, refs, c, rows, Some(patch), n) else Result(true, db);
        if c in patch {
          EachRowOk(db, refs, u, c, rows, patch, n);
        }
        KnownState(first.db);
        EachColumnOk(first.db, u, cols[1..], rows, patch, n);
      }
    }

    lemma {:induction false} EnforcedOk(db: Db, u: Table, rows: seq<Row>, patch: Patch, n: nat)
      requires Valid() && State(db) && n <= FK_MAX_CASCADE_DEPTH
      ensures var out := Enforced(w, db, u, rows, Some(patch), n);
        && State(out.db) && ((forall x, c :: x in rows && c in patch ==> Fine(n, u, c, Get(x, c))) ==> out.ok)
        && (out.ok ==> forall l, x :: (l in Links() && l.refTable == u && l.refCol in patch
              && l.onUpdate == Restrict && x in rows && !Get(x, l.refCol).Null?) ==> NoneHas(db0, l, Get(x, l.refCol)))
      decreases FK_MAX_CASCADE_DEPTH + 1 - n, 4, 0
    {
      hide EachColumn, Valid, State, Fine, NoneHas, Get, EnforcedColumns, Found;
      KnownState(db);
      var cols := EnforcedColumns(w.schema, u);
      EachColumnOk(db, u, cols, rows, patch, n);
      forall l | l in Links() && l.refTable == u
        ensures l.refCol in cols && l in Found(Links(), u, l.refCol)
      {
        Looked(l);
      }
    }

    lemma Looked(l: Link)
      requires Valid() && l in Links()
      ensures l.refCol in EnforcedColumns(w.schema, l.refTable) && l in Found(Links(), l.refTable, l.refCol)
    {
      hide FetchesOnly, AcceptsPatches;
      ReferencersMatch(Links(), l.refTable, l.refCol);
    }
  }

  /** No row RESTRICTs the change of a key value of an affected row. */
  ghost predicate NoneRestricts(w: World, db: Db, t: Table, f: Filter, patch: Patch)
    requires t in db
  {
    forall l, p, r :: (l in Links(w.schema) && l.refTable == t && l.refCol in patch && l.onUpdate == Restrict
      && p in Select(db[t], f) && r in Rows(db, l.table)) ==> !Actions.References(r, l, p)
  }

  /** On any schema: an UPDATE goes through when the values it writes have parents and no row RESTRICTs a changed key
      directly or at the end of a chain within the cap; and when it does go through, the first two hold. */
  lemma UpdateGoesThrough(w: World, db: Db, t: Table, f: Filter, patch: Patch)
    requires Known(w.schema, db) && t in db && Change(w, db, t).Valid() && FetchesAll(w)
    ensures ChildPasses(db, Links(w.schema), t, patch)
      && (forall p, c :: p in Select(db[t], f) && c in patch && !Get(p, c).Null? ==>
            Change(w, db, t).Unblocked(c, Get(p, c)))
      ==> Updated(w, db, t, f, patch).ok
    ensures Updated(w, db, t, f, patch).ok ==>
      ChildPasses(db, Links(w.schema), t, patch) && NoneRestricts(w, db, t, f, patch)
  {
    hide Enforced, ChildPasses, Patched, Compare, Get, Change.Unblocked;
    var ch := Change(w, db, t);
    var rows := w.fetch(t, db[t], f);
    Actions.FetchedAmong(w, db[t], t, f);
    ch.EnforcedOk(db, t, rows, patch, 0);
    var below := Enforced(w, db, t, rows, Some(patch), 0);
    ch.Accepts(t, below.db[t], f, patch);
    if forall p, c :: p in Select(db[t], f) && c in patch && !Get(p, c).Null? ==> ch.Unblocked(c, Get(p, c)) {
      forall x, c | x in rows && c in patch
        ensures ch.Fine(0, t, c, Get(x, c))
      {
        assert ch.Follows(c, 0, t, c);
      }
    }
  }

  /** With keys that are no foreign keys themselves, cycles or not: an UPDATE goes through exactly when the values it
      writes have parents and no row RESTRICTs the change of an affected row's key. */
  lemma UpdateAllowedExactly(w: World, db: Db, t: Table, f: Filter, patch: Patch)
    requires Known(w.schema, db) && t in db && WellFormed(w.schema) && FetchesOnly(w) && FetchesAll(w)
    requires AcceptsPatches(w) && Actions.PlainKeys(Links(w.schema))
    ensures Updated(w, db, t, f, patch).ok <==>
      ChildPasses(db, Links(w.schema), t, patch) && NoneRestricts(w, db, t, f, patch)
  {
    hide Updated, ChildPasses, Compare, Get;
    var ch := Change(w, db, t);
    UpdateGoesThrough(w, db, t, f, patch);
    if NoneRestricts(w, db, t, f, patch) {
      forall p, c | p in Select(db[t], f) && c in patch && !Get(p, c).Null?
        ensures ch.Unblocked(c, Get(p, c))
      {
        forall n: nat, l | n <= FK_MAX_CASCADE_DEPTH && l in ch.Links() && ch.Follows(c, n, l.refTable, l.refCol)
          ensures if l.onUpdate == Restrict then NoneHas(db, l, Get(p, c)) else n < FK_MAX_CASCADE_DEPTH
        {
          assert n == 0;
          forall r | r in Rows(db, l.table) && l.onUpdate == Restrict
            ensures !Eq(Get(r, l.col), Get(p, c))
          {
            assert !Actions.References(r, l, p);
          }
        }
      }
    }
  }
}
