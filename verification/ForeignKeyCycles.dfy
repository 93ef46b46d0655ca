/** DELETE on any schema, cycles included (src/kumdb.c). */
module ForeignKeyCycles {
  import opened Values
  import opened ForeignKeys

  /** While rows are deleted, rows vanish and references are cleared; nothing else happens. That is enough for
    integrity on every schema, as long as clearing a reference cannot make the DELETE's own filter select a row.
   */

  // ---------------------------------------------------------------- fading

  /** The row with some of its columns cleared. */
  ghost predicate ClearedOf(x: Row, r: Row) {
    && x.id == r.id && x.createdAt == r.createdAt
    && forall c :: c !in PSEUDO ==> Get(x, c) == Get(r, c) || Get(x, c).Null?
  }

  ghost predicate Fades(db: Db, after: Db) {
    after.Keys == db.Keys && forall t, x :: x in Rows(after, t) ==> Stems(db, t, x)
  }

  ghost predicate Stems(db: Db, t: Table, x: Row) {
    exists r :: r in Rows(db, t) && ClearedOf(x, r)
  }

  lemma FadesOn(a: Db, b: Db, c: Db)
    requires Fades(a, b) && Fades(b, c)
    ensures Fades(a, c)
  {
    hide ClearedOf;
    forall t, x | x in Rows(c, t)
      ensures Stems(a, t, x)
    {
      assert Stems(b, t, x);
      var y :| y in Rows(b, t) && ClearedOf(x, y);
      assert Stems(a, t, y);
      var r :| r in Rows(a, t) && ClearedOf(y, r);
      ClearedTwice(x, y, r);
    }
  }

  lemma ClearedTwice(x: Row, y: Row, r: Row)
    requires ClearedOf(x, y) && ClearedOf(y, r)
    ensures ClearedOf(x, r)
  {
    hide Get;
  }

  lemma FadesNot(db: Db)
    ensures Fades(db, db)
  {
    forall t, x | x in Rows(db, t)
      ensures Stems(db, t, x)
    {
      assert ClearedOf(x, x);
    }
  }

  /** Clearing brings no value back. */
  lemma StillNone(db: Db, after: Db, l: Link, v: Value)
    requires Fades(db, after) && NoneHas(db, l, v) && !v.Null? && l.col !in PSEUDO
    ensures NoneHas(after, l, v)
  {
    forall x | x in Rows(after, l.table)
      ensures !Eq(Get(x, l.col), v)
    {
      assert Stems(db, l.table, x);
    }
  }

  /** Nothing depends on the row any more. */
  ghost predicate RowFree(db: Db, links: seq<Link>, t: Table, r: Row, patch: Option<Patch>) {
    forall l :: l in links && l.refTable == t && Touches(patch, l.refCol) ==>
      Get(r, l.refCol).Null? || NoneHas(db, l, Get(r, l.refCol))
  }

  /** A row that stems from a free one is free. */
  lemma StemIsFree(db: Db, links: seq<Link>, t: Table, x: Row, r: Row, patch: Option<Patch>)
    requires ClearedOf(x, r) && RowFree(db, links, t, r, patch)
    requires forall l :: l in links ==> l.refCol != "updated_at"
    ensures RowFree(db, links, t, x, patch)
  {
    hide NoneHas;
    forall l | l in links && l.refTable == t && Touches(patch, l.refCol) && !Get(x, l.refCol).Null?
      ensures NoneHas(db, l, Get(x, l.refCol))
    {
      assert Get(x, l.refCol) == Get(r, l.refCol);
    }
  }

  // ---------------------------------------------------------------- the two writes

  /** Clearing one column of rows on whose value there nothing depends. */
  lemma ClearKeeps(db: Db, links: seq<Link>, t: Table, f: Filter, c: Column, now: int)
    requires t in db && Intact(db, links, {}) && c !in PSEUDO
    requires forall l :: l in links ==> l.refCol != "updated_at" && l.col !in PSEUDO
    requires forall r :: r in db[t] && Selects(f, r) ==> RowFree(db, links, t, r, Some(map[c := Null]))
    ensures var after := db[t := Patched(db[t], f, map[c := Null], now)];
      Intact(after, links, {}) && Fades(db, after)
  {
    hide Selects, Compare;
    var one := map[c := Null];
    var after := db[t := Patched(db[t], f, one, now)];
    forall u, x | x in Rows(after, u)
      ensures Stems(db, u, x)
    {
      var r := Source(db, t, f, one, now, u, x);
    }
    forall l, x | l in links && x in Rows(after, l.table)
      ensures Supported(after, {}, l, Get(x, l.col))
    {
      var v := Get(x, l.col);
      var r := Source(db, t, f, one, now, l.table, x);
      if !v.Null? {
        assert Get(r, l.col) == v && Supported(db, {}, l, v);
        var p :| p in Rows(db, l.refTable) && Eq(Get(p, l.refCol), v);
        ParentStays(db, links, t, f, c, now, l, r, p, v);
      }
    }
  }

  /** The row an updated row was. */
  lemma Source(db: Db, t: Table, f: Filter, one: Patch, now: int, u: Table, x: Row) returns (r: Row)
    requires t in db && x in Rows(db[t := Patched(db[t], f, one, now)], u)
    requires forall c :: c in one ==> one[c].Null?
    ensures r in Rows(db, u) && ClearedOf(x, r)
  {
    hide Selects;
    if u == t {
      var i :| 0 <= i < |db[t]| && Patched(db[t], f, one, now)[i] == x;
      r := db[t][i];
    } else {
      r := x;
    }
  }

  lemma FreeHasNoChild(db: Db, links: seq<Link>, t: Table, p: Row, l: Link, r: Row, patch: Option<Patch>)
    requires RowFree(db, links, t, p, patch) && l in links && l.refTable == t && Touches(patch, l.refCol)
    requires r in Rows(db, l.table) && !Get(r, l.col).Null?
    ensures !Eq(Get(p, l.refCol), Get(r, l.col))
  {
    hide Get, Compare;
    EqSymmetric(Get(p, l.refCol), Get(r, l.col));
    EqNull(Get(r, l.col));
  }

  lemma ParentStays(db: Db, links: seq<Link>, t: Table, f: Filter, c: Column, now: int, l: Link, r: Row, p: Row,
                    v: Value)
    requires t in db && l in links && l.refCol != "updated_at"
    requires r in Rows(db, l.table) && Get(r, l.col) == v && p in Rows(db, l.refTable) && Eq(Get(p, l.refCol), v)
    requires forall x :: x in db[t] && Selects(f, x) ==> RowFree(db, links, t, x, Some(map[c := Null]))
    requires !v.Null? && c !in PSEUDO
    ensures HasParent(db[t := Patched(db[t], f, map[c := Null], now)], l, v)
  {
    hide Selects, Compare;
    var after := db[t := Patched(db[t], f, map[c := Null], now)];
    if l.refTable == t {
      var i :| 0 <= i < |db[t]| && db[t][i] == p;
      var x := after[t][i];
      assert x in Rows(after, t);
      if Selects(f, p) && l.refCol == c {
        FreeHasNoChild(db, links, t, p, l, r, Some(map[c := Null]));
      } else {
        assert Get(x, l.refCol) == Get(p, l.refCol);
      }
    } else {
      assert p in Rows(after, l.refTable);
    }
  }

  /** Deleting rows on which nothing depends. */
  lemma DropKeeps(db: Db, links: seq<Link>, t: Table, f: Filter)
    requires t in db && Intact(db, links, {})
    requires forall r :: r in db[t] && Selects(f, r) ==> RowFree(db, links, t, r, None)
    ensures var after := db[t := Reject(db[t], f)]; Intact(after, links, {}) && Fades(db, after)
  {
    hide Selects, Compare;
    var after := db[t := Reject(db[t], f)];
    forall u, x | x in Rows(after, u)
      ensures Stems(db, u, x)
    {
      assert x in Rows(db, u) && ClearedOf(x, x);
    }
    forall l, x | l in links && x in Rows(after, l.table)
      ensures Supported(after, {}, l, Get(x, l.col))
    {
      var v := Get(x, l.col);
      assert x in Rows(db, l.table) && Supported(db, {}, l, v);
      if !v.Null? {
        var p :| p in Rows(db, l.refTable) && Eq(Get(p, l.refCol), v);
        if l.refTable == t && Selects(f, p) {
          FreeHasNoChild(db, links, t, p, l, x, None);
        } else {
          assert p in Rows(after, l.refTable);
        }
      }
    }
  }

  // ---------------------------------------------------------------- enforcement fades

  ghost predicate Ready(w: World, db: Db) {
    WellFormed(w.schema) && Known(w.schema, db) && Intact(db, Links(w.schema), {}) && FetchesOnly(w) && FetchesAll(w)
  }

  ghost predicate Faded(w: World, db: Db, after: Db) {
    Fades(db, after) && Ready(w, after)
  }

  lemma FadedOn(w: World, a: Db, b: Db, c: Db)
    requires Faded(w, a, b) && Faded(w, b, c)
    ensures Faded(w, a, c)
  {
    FadesOn(a, b, c);
  }

  lemma FadedNot(w: World, db: Db)
    requires Ready(w, db)
    ensures Faded(w, db, db)
  {
    FadesNot(db);
  }

  lemma LinkFacts(w: World, db: Db)
    requires Ready(w, db)
    ensures Known(w.schema, db)
    ensures forall l :: l in Links(w.schema) ==> l.table in db && l.col !in PSEUDO && l.refCol != "updated_at"
  {
  }

  /** The rows that still have `v` stem from rows that had it, so nothing depends on them either. */
  lemma SelectedAreFree(w: World, db: Db, after: Db, t: Table, f: Filter, patch: Option<Patch>)
    requires Ready(w, db) && Faded(w, db, after) && t in db && Steady(f)
    requires forall r :: r in w.fetch(t, db[t], f) ==> RowFree(after, Links(w.schema), t, r, patch)
    ensures t in after
    ensures forall x :: x in after[t] && Selects(f, x) ==> RowFree(after, Links(w.schema), t, x, patch)
  {
    hide Selects, ClearedOf, RowFree;
    LinkFacts(w, db);
    forall x | x in after[t] && Selects(f, x)
      ensures RowFree(after, Links(w.schema), t, x, patch)
    {
      assert x in Rows(after, t) && Stems(db, t, x);
      var r :| r in Rows(db, t) && ClearedOf(x, r);
      StemIsFree(after, Links(w.schema), t, x, r, patch);
    }
  }

  /** Clearing columns never makes the filter select a row. */
  ghost predicate Steady(f: Filter) {
    forall x, r :: ClearedOf(x, r) && Selects(f, x) ==> Selects(f, r)
  }

  /** A filter for a value is steady. */
  lemma ColumnIsSteady(c: Column, v: Value)
    requires !v.Null? && c != "updated_at"
    ensures Steady(ColumnIs(c, v))
  {
    hide Compare;
    forall x, r | ClearedOf(x, r) && Selects(ColumnIs(c, v), x)
      ensures Selects(ColumnIs(c, v), r)
    {
      EqNull(v);
      assert Get(x, c) == Get(r, c);
    }
  }

  lemma {:induction false} SetOneFades(w: World, db: Db, l: Link, v: Value, depth: nat)
    requires Ready(w, db) && l in Links(w.schema) && !v.Null? && depth <= FK_MAX_CASCADE_DEPTH + 1
    ensures var out := SetOne(w, db, l, v, Null, depth);
      Faded(w, db, out.db) && (out.ok ==> NoneHas(out.db, l, v))
    decreases FK_MAX_CASCADE_DEPTH + 1 - depth, 5, 0
  {
    hide Enforced, Fades, Intact, WellFormed, Links, Patched, Select, RowFree, Steady;
    FadedNot(w, db);
    LinkFacts(w, db);
    if depth <= FK_MAX_CASCADE_DEPTH {
      var f, one := ColumnIs(l.col, v), map[l.col := Null];
      var affected := w.fetch(l.table, db[l.table], f);
      EnforcedFades(w, db, l.table, affected, Some(one), depth);
      var below := Enforced(w, db, l.table, affected, Some(one), depth);
      if below.ok {
        ColumnIsSteady(l.col, v);
        SelectedAreFree(w, db, below.db, l.table, f, Some(one));
        LinkFacts(w, below.db);
        ClearKeeps(below.db, Links(w.schema), l.table, f, l.col, w.now);
        var after := below.db[l.table := Patched(below.db[l.table], f, one, w.now)];
        ClearedAway(below.db, l, v, w.now);
        FadedOn(w, db, below.db, after);
      }
    }
  }

  lemma ClearedAway(db: Db, l: Link, v: Value, now: int)
    requires l.table in db && l.col !in PSEUDO && !v.Null?
    ensures NoneHas(db[l.table := Patched(db[l.table], ColumnIs(l.col, v), map[l.col := Null], now)], l, v)
  {
    hide Compare;
    var rows := Patched(db[l.table], ColumnIs(l.col, v), map[l.col := Null], now);
    EqNull(v);
    forall x | x in rows
      ensures !Eq(Get(x, l.col), v)
    {
      var i :| 0 <= i < |rows| && rows[i] == x;
    }
  }

  lemma {:induction false} OneFades(w: World, db: Db, l: Link, v: Value, patch: Option<Patch>, depth: nat)
    requires Ready(w, db) && l in Links(w.schema) && !v.Null? && depth <= FK_MAX_CASCADE_DEPTH && Clears(patch)
    ensures var out := One(w, db, l, v, patch, depth);
      Faded(w, db, out.db) && (out.ok ==> NoneHas(out.db, l, v))
    decreases FK_MAX_CASCADE_DEPTH + 1 - depth, 0, 0
  {
    hide Enforced, SetOne, Fades, Intact, WellFormed, Links, RowFree, Steady;
    FadedNot(w, db);
    LinkFacts(w, db);
    var f, action := ColumnIs(l.col, v), ActionOf(l, patch);
    if action == Restrict {
      if Select(db[l.table], f) == [] {
        forall r | r in Rows(db, l.table)
          ensures !Eq(Get(r, l.col), v)
        {
          assert r !in Select(db[l.table], f);
        }
      }
    } else if action == SetNull || patch.Some? {
      SetOneFades(w, db, l, v, depth + 1);
    } else {
      var affected := w.fetch(l.table, db[l.table], f);
      EnforcedFades(w, db, l.table, affected, None, depth + 1);
      var below := Enforced(w, db, l.table, affected, None, depth + 1);
      if below.ok {
        ColumnIsSteady(l.col, v);
        SelectedAreFree(w, db, below.db, l.table, f, None);
        DropKeeps(below.db, Links(w.schema), l.table, f);
        if w.accepts(l.table, below.db[l.table], Reject(below.db[l.table], f)) {
          FadedOn(w, db, below.db, below.db[l.table := Reject(below.db[l.table], f)]);
        }
      }
    }
  }

  lemma {:induction false} EachFades(w: World, db: Db, refs: seq<Link>, v: Value, patch: Option<Patch>, depth: nat)
    requires Ready(w, db) && !v.Null? && depth <= FK_MAX_CASCADE_DEPTH && Clears(patch)
    requires forall l :: l in refs ==> l in Links(w.schema)
    ensures var out := Each(w, db, refs, v, patch, depth);
      Faded(w, db, out.db) && (out.ok ==> forall l :: l in refs ==> NoneHas(out.db, l, v))
    decreases FK_MAX_CASCADE_DEPTH + 1 - depth, 1, |refs|
  {
    hide One, Fades, Intact, WellFormed, Links, NoneHas;
    FadedNot(w, db);
    LinkFacts(w, db);
    if refs != [] {
      OneFades(w, db, refs[0], v, patch, depth);
      var first := One(w, db, refs[0], v, patch, depth);
      if first.ok {
        EachFades(w, first.db, refs[1..], v, patch, depth);
        var out := Each(w, first.db, refs[1..], v, patch, depth);
        FadedOn(w, db, first.db, out.db);
        if out.ok {
          StillNone(first.db, out.db, refs[0], v);
        }
      }
    }
  }

  lemma {:induction false} EachRowFades(w: World, db: Db, refs: seq<Link>, c: Column, affected: seq<Row>,
                                        patch: Option<Patch>, depth: nat)
    requires Ready(w, db) && depth <= FK_MAX_CASCADE_DEPTH && Clears(patch)
    requires forall l :: l in refs ==> l in Links(w.schema)
    ensures var out := EachRow(w, db, refs, c, affected, patch, depth);
      && Faded(w, db, out.db)
      && (out.ok ==> forall l, r :: l in refs && r in affected ==> Get(r, c).Null? || NoneHas(out.db, l, Get(r, c)))
    decreases FK_MAX_CASCADE_DEPTH + 1 - depth, 2, |affected|
  {
    hide Each, Fades, Intact, WellFormed, Links, NoneHas, Get;
    FadedNot(w, db);
    LinkFacts(w, db);
    if affected != [] {
      var v := Get(affected[0], c);
      if !v.Null? {
        EachFades(w, db, refs, v, patch, depth);
      }
      var first := if v.Null? then Result(true, db) else Each(w, db, refs, v, patch, depth);
      if first.ok {
        EachRowFades(w, first.db, refs, c, affected[1..], patch, depth);
        var out := EachRow(w, first.db, refs, c, affected[1..], patch, depth);
        FadedOn(w, db, first.db, out.db);
        forall l | l in refs && out.ok && !v.Null?
          ensures NoneHas(out.db, l, v)
        {
          StillNone(first.db, out.db, l, v);
        }
      }
    }
  }

  lemma {:induction false} EachColumnFades(w: World, db: Db, t: Table, cols: seq<Column>, affected: seq<Row>,
                                           patch: Option<Patch>, depth: nat)
    requires Ready(w, db) && depth <= FK_MAX_CASCADE_DEPTH && Clears(patch)
    ensures var out := EachColumn(w, db, t, cols, affected, patch, depth);
      && Faded(w, db, out.db)
      && (out.ok ==> forall l, r :: l in Links(w.schema) && l.refTable == t && l.refCol in cols && r in affected
                       ==> FreeOf(out.db, l, r, patch))
    decreases FK_MAX_CASCADE_DEPTH + 1 - depth, 3, |cols|
  {
    hide EachRow, Fades, Intact, WellFormed, Links, NoneHas, Get, Found;
    FadedNot(w, db);
    LinkFacts(w, db);
    if cols != [] {
      var c := cols[0];
      var refs := Found(Links(w.schema), t, c);
      if Touches(patch, c) {
        EachRowFades(w, db, refs, c, affected, patch, depth);
      }
      var first := if Touches(patch, c) then EachRow(w, db, refs, c, affected, patch, depth) else Result(true, db);
      if first.ok {
        EachColumnFades(w, first.db, t, cols[1..], affected, patch, depth);
        var out := EachColumn(w, first.db, t, cols[1..], affected, patch, depth);
        FadedOn(w, db, first.db, out.db);
        forall l, r | l in Links(w.schema) && l.refTable == t && l.refCol == c && r in affected && out.ok
          ensures FreeOf(out.db, l, r, patch)
        {
          AllFound(w, db, l);
          if Touches(patch, c) && !Get(r, c).Null? {
            StillNone(first.db, out.db, l, Get(r, c));
          }
        }
      }
    }
  }

  ghost predicate FreeOf(db: Db, l: Link, r: Row, patch: Option<Patch>) {
    Touches(patch, l.refCol) ==> Get(r, l.refCol).Null? || NoneHas(db, l, Get(r, l.refCol))
  }

  lemma AllFound(w: World, db: Db, l: Link)
    requires Ready(w, db) && l in Links(w.schema)
    ensures l in Found(Links(w.schema), l.refTable, l.refCol) && l.refCol in EnforcedColumns(w.schema, l.refTable)
  {
    ReferencersMatch(Links(w.schema), l.refTable, l.refCol);
  }

  lemma {:induction false} EnforcedFades(w: World, db: Db, t: Table, affected: seq<Row>, patch: Option<Patch>,
                                         depth: nat)
    requires Ready(w, db) && depth <= FK_MAX_CASCADE_DEPTH + 1 && Clears(patch)
    ensures var out := Enforced(w, db, t, affected, patch, depth);
      && Faded(w, db, out.db)
      && (out.ok ==> forall r :: r in affected ==> RowFree(out.db, Links(w.schema), t, r, patch))
    decreases FK_MAX_CASCADE_DEPTH + 1 - depth, 4, 0
  {
    hide EachColumn, Fades, Intact, WellFormed, Links, NoneHas, Get, EnforcedColumns;
    FadedNot(w, db);
    if depth <= FK_MAX_CASCADE_DEPTH {
      EachColumnFades(w, db, t, EnforcedColumns(w.schema, t), affected, patch, depth);
      var out := EachColumn(w, db, t, EnforcedColumns(w.schema, t), affected, patch, depth);
      forall r, l | r in affected && l in Links(w.schema) && l.refTable == t && Touches(patch, l.refCol) && out.ok
        ensures Get(r, l.refCol).Null? || NoneHas(out.db, l, Get(r, l.refCol))
      {
        AllFound(w, db, l);
        assert FreeOf(out.db, l, r, patch);
      }
    }
  }

  /** On any schema, cyclic or self-referencing, and whatever the status: a DELETE with a steady filter keeps
      references intact, and does nothing but remove rows and clear columns. Without a steady filter it need not
      (`ForeignKeyFailures.SelfReferenceDangles`). */
  lemma DeleteKeepsAnySchema(w: World, db: Db, t: Table, f: Filter)
    requires Ready(w, db) && t in db && Steady(f)
    ensures Intact(Deleted(w, db, t, f).db, Links(w.schema), {}) && Fades(db, Deleted(w, db, t, f).db)
  {
    hide Enforced, Fades, Intact, WellFormed, Links, RowFree, Steady;
    var affected := w.fetch(t, db[t], f);
    EnforcedFades(w, db, t, affected, None, 0);
    var below := Enforced(w, db, t, affected, None, 0);
    if below.ok {
      SelectedAreFree(w, db, below.db, t, f, None);
      DropKeeps(below.db, Links(w.schema), t, f);
      FadesOn(db, below.db, below.db[t := Reject(below.db[t], f)]);
    }
  }
}
