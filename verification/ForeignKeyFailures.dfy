/** Where referential integrity is lost (src/kumdb.c). */
module ForeignKeyFailures {
  import opened Values
  import opened ForeignKeys
  import Actions = ForeignKeyActions

  // ---------------------------------------------------------------- enforcement that finds nothing to do

  ghost predicate Scanning(w: World) {
    w.fetch == ScanFetch()
  }

  lemma ScanFetches(w: World)
    requires Scanning(w)
    ensures FetchesOnly(w) && FetchesAll(w) && forall t, rows, f :: w.fetch(t, rows, f) == Select(rows, f)
  {
  }

  /** Constraints that accept rows that have not changed. */
  ghost predicate Tolerant(w: World, db: Db, t: Table) {
    Scanning(w) && forall l :: l in Links(w.schema) && l.refTable == t && l.table in db ==>
      w.accepts(l.table, db[l.table], db[l.table])
  }

  lemma {:induction false} SelectNone(rows: seq<Row>, f: Filter)
    requires forall r :: r in rows ==> !Selects(f, r)
    ensures Select(rows, f) == [] && Reject(rows, f) == rows
  {
    if rows != [] {
      SelectNone(rows[1..], f);
    }
  }

  lemma {:induction false} NothingAffected(w: World, db: Db, t: Table, cols: seq<Column>, patch: Option<Patch>,
                                           depth: nat)
    requires Known(w.schema, db) && depth <= FK_MAX_CASCADE_DEPTH
    ensures EachColumn(w, db, t, cols, [], patch, depth) == Result(true, db)
  {
    if cols != [] {
      NothingAffected(w, db, t, cols[1..], patch, depth);
    }
  }

  lemma QuietOne(w: World, db: Db, l: Link, v: Value, patch: Option<Patch>, depth: nat)
    requires Known(w.schema, db) && l in Links(w.schema) && depth < FK_MAX_CASCADE_DEPTH
    requires NoneHas(db, l, v) && w.accepts(l.table, db[l.table], db[l.table]) && Scanning(w)
    ensures One(w, db, l, v, patch, depth) == Result(true, db)
  {
    hide EachColumn, Compare, Get, Select, Reject, Patched, Links, EnforcedColumns, NoneHas;
    ScanFetches(w);
    hide ScanFetch;
    var f := ColumnIs(l.col, v);
    QuietTable(db, l, v, w.now);
    var due := if ActionOf(l, patch) == SetNull then Null else NewOf(patch, l.refCol);
    var cols := EnforcedColumns(w.schema, l.table);
    NothingAffected(w, db, l.table, cols, Some(map[l.col := due]), depth + 1);
    NothingAffected(w, db, l.table, cols, None, depth + 1);
    assert db[l.table := db[l.table]] == db;
    assert Enforced(w, db, l.table, [], Some(map[l.col := due]), depth + 1) == Result(true, db);
    assert SetOne(w, db, l, v, due, depth + 1) == Result(true, db);
    assert Enforced(w, db, l.table, [], None, depth + 1) == Result(true, db);
  }

  lemma QuietTable(db: Db, l: Link, v: Value, now: int)
    requires l.table in db && NoneHas(db, l, v)
    ensures var f := ColumnIs(l.col, v);
      && Select(db[l.table], f) == [] && Reject(db[l.table], f) == db[l.table]
      && forall patch :: Patched(db[l.table], f, patch, now) == db[l.table]
  {
    hide Compare, Get;
    assert Rows(db, l.table) == db[l.table];
    SelectNone(db[l.table], ColumnIs(l.col, v));
  }

  lemma {:induction false} QuietEach(w: World, db: Db, refs: seq<Link>, t: Table, v: Value, patch: Option<Patch>,
                                     depth: nat)
    requires Known(w.schema, db) && depth < FK_MAX_CASCADE_DEPTH && Tolerant(w, db, t)
    requires forall l :: l in refs ==> l in Links(w.schema) && l.refTable == t && NoneHas(db, l, v)
    ensures Each(w, db, refs, v, patch, depth) == Result(true, db)
  {
    hide One, NoneHas;
    if refs != [] {
      QuietOne(w, db, refs[0], v, patch, depth);
      QuietEach(w, db, refs[1..], t, v, patch, depth);
    }
  }

  lemma {:induction false} QuietEachRow(w: World, db: Db, refs: seq<Link>, t: Table, c: Column, affected: seq<Row>,
                                        patch: Option<Patch>, depth: nat)
    requires Known(w.schema, db) && depth < FK_MAX_CASCADE_DEPTH && Tolerant(w, db, t)
    requires forall l, p :: l in refs && p in affected ==>
      l in Links(w.schema) && l.refTable == t && (Get(p, c).Null? || NoneHas(db, l, Get(p, c)))
    requires forall l :: l in refs ==> l in Links(w.schema)
    ensures EachRow(w, db, refs, c, affected, patch, depth) == Result(true, db)
  {
    hide Each, NoneHas, Tolerant;
    if affected != [] {
      if !Get(affected[0], c).Null? {
        QuietEach(w, db, refs, t, Get(affected[0], c), patch, depth);
      }
      QuietEachRow(w, db, refs, t, c, affected[1..], patch, depth);
    }
  }

  lemma {:induction false} QuietEachColumn(w: World, db: Db, t: Table, cols: seq<Column>, affected: seq<Row>,
                                           patch: Option<Patch>, depth: nat)
    requires Known(w.schema, db) && depth < FK_MAX_CASCADE_DEPTH && Tolerant(w, db, t)
    requires forall l, p :: l in Links(w.schema) && l.refTable == t && p in affected ==>
      Get(p, l.refCol).Null? || NoneHas(db, l, Get(p, l.refCol))
    ensures EachColumn(w, db, t, cols, affected, patch, depth) == Result(true, db)
  {
    hide EachRow, NoneHas, Tolerant, Links;
    if cols != [] {
      QuietEachRow(w, db, Found(Links(w.schema), t, cols[0]), t, cols[0], affected, patch, depth);
      QuietEachColumn(w, db, t, cols[1..], affected, patch, depth);
    }
  }

  // ---------------------------------------------------------------- a database an UPDATE breaks

  function Columns(links: seq<Link>): set<Column> {
    (set l | l in links :: l.col) + (set l | l in links :: l.refCol)
  }

  function Tables(links: seq<Link>): set<Table> {
    (set l | l in links :: l.table) + (set l | l in links :: l.refTable)
  }

  /** A row with the number `n` in every column that matters, its id and its time of creation too. */
  function FullRow(links: seq<Link>, n: int): Row {
    Row(n, n, 0, map c | c in Columns(links) :: Int(n))
  }

  function Parent(l: Link, n: int): Row {
    Row(n, n, 0, map[l.refCol := Int(n)])
  }

  function Child(l: Link, n: int): Row {
    Row(0, 0, 0, map[l.col := Int(n)])
  }

  /** One case of the key: a link, an intact database in which the patch passes the child check, and a number
      that is not the new value. */
  datatype Case = Case(schema: Schema, ghost rank: Table -> nat, db0: Db, l: Link, n: int, patch: Patch)
  {
    function Links(): seq<Link> {
      ForeignKeys.Links(schema)
    }

    function NewV(): Value {
      NewOf(Some(patch), l.refCol)
    }

    ghost predicate Valid() {
      && WellFormed(schema) && Ranked(schema, rank) && l in Links() && l.onUpdate == Cascade
      && Intact(db0, Links(), {}) && ChildPasses(db0, Links(), l.refTable, patch)
      && !NewV().Null? && !Eq(NewV(), Int(n))
    }

    /** The tables above keep their rows and get one more; those below lose theirs; parent and child stand alone. */
    ghost function Before(): Db {
      map u | u in db0.Keys + Tables(Links()) ::
        if u == l.refTable then [Parent(l, n)]
        else if u == l.table then [Child(l, n)]
        else if rank(u) <= rank(l.refTable) then []
        else Rows(db0, u) + [FullRow(Links(), n)]
    }

    ghost function Cascaded(now: int): Db {
      Before()[l.table := [PatchRow(Child(l, n), map[l.col := NewV()], now)]]
    }
  }

  lemma IntEq(n: int)
    ensures Eq(Int(n), Int(n))
  {
  }

  lemma FullRowHas(links: seq<Link>, n: int, c: Column)
    requires c in Columns(links) && c != "updated_at"
    ensures Get(FullRow(links, n), c) == Int(n)
  {
  }

  lemma {:induction false} BeforeAbove(x: Case, m: Link)
    requires x.Valid() && m in x.Links() && x.rank(m.table) >= x.rank(x.l.refTable)
    ensures FullRow(x.Links(), x.n) in Rows(x.Before(), m.refTable)
    ensures forall p :: p in Rows(x.db0, m.refTable) ==> p in Rows(x.Before(), m.refTable)
    ensures Eq(Get(FullRow(x.Links(), x.n), m.refCol), Int(x.n))
  {
    assert m.refTable in Tables(x.Links());
    FullRowHas(x.Links(), x.n, m.refCol);
    IntEq(x.n);
  }

  lemma {:induction false} ChildSupported(x: Case, m: Link)
    requires x.Valid() && m in x.Links() && m.table == x.l.table
    ensures Supported(x.Before(), {}, m, Get(Child(x.l, x.n), m.col))
  {
    hide Case.Valid, Case.Before, Case.Links, Compare, Get, Child, Parent;
    BeforeHere(x);
    CaseFacts(x, m);
    if m == x.l {
      KeyIsStored(x);
      ParentHas(x);
    } else {
      ChildHasOnly(x, m.col);
    }
    SupportedByParent(x.Before(), m, Get(Child(x.l, x.n), m.col), Parent(x.l, x.n));
  }

  lemma KeyIsStored(x: Case)
    requires x.Valid()
    ensures x.l.refCol != "updated_at"
  {
    hide Intact, ChildPasses;
  }

  lemma ChildHasOnly(x: Case, c: Column)
    requires c !in PSEUDO && c != x.l.col
    ensures Get(Child(x.l, x.n), c) == Null
  {
  }

  lemma SupportedByParent(db: Db, m: Link, v: Value, p: Row)
    ensures v.Null? || (m.refTable in db && p in db[m.refTable] && Eq(Get(p, m.refCol), v)) ==> Supported(db, {}, m, v)
  {
    hide Compare, Get;
    if m.refTable in db && p in db[m.refTable] && Eq(Get(p, m.refCol), v) {
      assert p in Rows(db, m.refTable) && HasParent(db, m, v);
    }
  }

  lemma ParentHas(x: Case)
    requires x.l.refCol != "updated_at" && x.l.col !in PSEUDO
    ensures Get(Parent(x.l, x.n), x.l.refCol) == Int(x.n) == Get(Child(x.l, x.n), x.l.col)
    ensures Eq(Int(x.n), Int(x.n))
  {
  }

  lemma {:induction false} AboveSupported(x: Case, m: Link, r: Row)
    requires x.Valid() && m in x.Links() && x.rank(m.table) >= x.rank(x.l.refTable)
    requires r == Parent(x.l, x.n) || r == FullRow(x.Links(), x.n) || r in Rows(x.db0, m.table)
    requires m.col != "updated_at" && m.col !in PSEUDO
    ensures Supported(x.Before(), {}, m, Get(r, m.col))
  {
    BeforeAbove(x, m);
    var v := Get(r, m.col);
    if r == FullRow(x.Links(), x.n) {
      assert m.col in Columns(x.Links());
      FullRowHas(x.Links(), x.n, m.col);
    }
    if r in Rows(x.db0, m.table) {
      assert Supported(x.db0, {}, m, v);
    } else {
      assert v == Int(x.n) || v.Null?;
    }
    hide Case.Before, Compare, Case.Valid, Links, FullRow;
    assert v == Int(x.n) ==> HasParent(x.Before(), m, v);
  }

  lemma RowsBefore(x: Case, u: Table, r: Row)
    requires x.Valid() && r in Rows(x.Before(), u)
    ensures u == x.l.table ==> r == Child(x.l, x.n)
    ensures u != x.l.table ==> x.rank(u) >= x.rank(x.l.refTable)
    ensures u != x.l.table ==> r == Parent(x.l, x.n) || r == FullRow(x.Links(), x.n) || r in Rows(x.db0, u)
  {
    hide Intact, ChildPasses, WellFormed;
    BeforeHere(x);
  }

  lemma {:induction false} BeforeIsIntact(x: Case)
    requires x.Valid()
    ensures Intact(x.Before(), x.Links(), {})
    ensures ChildPasses(x.Before(), x.Links(), x.l.refTable, x.patch)
    ensures Known(x.schema, x.Before()) && x.l.refTable in x.Before()
  {
    forall m, r | m in x.Links() && r in Rows(x.Before(), m.table)
      ensures Supported(x.Before(), {}, m, Get(r, m.col))
    {
      RowsBefore(x, m.table, r);
      CaseFacts(x, m);
      if m.table == x.l.table {
        ChildSupported(x, m);
      } else {
        AboveSupported(x, m, r);
      }
    }
    BeforePasses(x);
  }

  lemma BeforePasses(x: Case)
    requires x.Valid()
    ensures ChildPasses(x.Before(), x.Links(), x.l.refTable, x.patch)
  {
    hide Intact, WellFormed, Compare, FullRow;
    forall c | c in x.patch && FkOf(x.Links(), x.l.refTable, c).Some?
      ensures ValueHasParent(x.Before(), FkOf(x.Links(), x.l.refTable, c).value, x.patch[c])
    {
      var m := FkOf(x.Links(), x.l.refTable, c).value;
      assert ValueHasParent(x.db0, m, x.patch[c]);
      BeforeAbove(x, m);
      hide Case.Before;
    }
  }

  lemma BeforeHere(x: Case)
    requires x.Valid()
    ensures x.l.table in x.Before() && x.Before()[x.l.table] == [Child(x.l, x.n)] && x.l.table != x.l.refTable
    ensures x.l.refTable in x.Before() && x.Before()[x.l.refTable] == [Parent(x.l, x.n)]
  {
  }

  lemma BeforeBelow(x: Case, m: Link)
    requires x.Valid() && m in x.Links() && x.rank(m.refTable) <= x.rank(x.l.refTable) && m.table != x.l.table
    ensures Rows(x.Before(), m.table) == [] && m.table != m.refTable
    ensures forall v :: NoneHas(x.Before(), m, v)
  {
  }

  lemma Deeper(x: Case, m: Link)
    requires x.Valid() && m in x.Links() && m.refTable == x.l.table
    ensures m.table != x.l.table && x.rank(m.refTable) <= x.rank(x.l.refTable)
  {
  }

  lemma BelowQuiet(x: Case, w: World, one: Patch)
    requires x.Valid() && w.schema == x.schema && AcceptsBelow(w, x.l.refTable) && Known(w.schema, x.Before())
    ensures Enforced(w, x.Before(), x.l.table, [Child(x.l, x.n)], Some(one), 1) == Result(true, x.Before())
  {
    hide EachColumn, Case.Before, Links, Child, EnforcedColumns, Get, Known, NoneHas;
    var l, db, child := x.l, x.Before(), Child(x.l, x.n);
    forall m, p | m in Links(w.schema) && m.refTable == l.table && p in [child]
      ensures Get(p, m.refCol).Null? || NoneHas(db, m, Get(p, m.refCol))
    {
      Deeper(x, m);
      BeforeBelow(x, m);
    }
    TolerantBelow(x, w);
    QuietEachColumn(w, db, l.table, EnforcedColumns(w.schema, l.table), [child], Some(one), 1);
  }

  lemma TolerantBelow(x: Case, w: World)
    requires x.Valid() && w.schema == x.schema && AcceptsBelow(w, x.l.refTable)
    ensures Tolerant(w, x.Before(), x.l.table)
  {
    hide Case.Before, Intact, ChildPasses;
  }

  lemma ChildSelected(x: Case)
    requires x.l.col !in PSEUDO
    ensures Select([Child(x.l, x.n)], ColumnIs(x.l.col, Int(x.n))) == [Child(x.l, x.n)]
  {
    IntEq(x.n);
    OnlyRow(Child(x.l, x.n), ColumnIs(x.l.col, Int(x.n)));
  }

  /** The cascade's own step. */
  lemma CascadeStep(x: Case, w: World)
    requires x.Valid() && w.schema == x.schema && AcceptsBelow(w, x.l.refTable)
    requires Known(w.schema, x.Before())
    ensures One(w, x.Before(), x.l, Int(x.n), Some(x.patch), 0) == Result(true, x.Cascaded(w.now))
  {
    var l, db := x.l, x.Before();
    var f, one := ColumnIs(l.col, Int(x.n)), map[l.col := x.NewV()];
    var child := Child(l, x.n);
    ChildSelected(x);
    OnlyPatched1(child, f, one, w.now);
    BeforeHere(x);
    hide Compare, Case.Before, Links, Select, Child, EnforcedColumns, Get, Known, Enforced, Patched;
    BelowQuiet(x, w, one);
    ScanFetches(w);
    hide ScanFetch, FetchesOnly, FetchesAll, FkOf;
    assert SetOne(w, db, l, Int(x.n), x.NewV(), 1) == Result(true, x.Cascaded(w.now));
  }

  lemma OnlyPatched1(r: Row, f: Filter, patch: Patch, now: int)
    ensures Patched([r], f, patch, now) == [if Select([r], f) == [r] then PatchRow(r, patch, now) else r]
  {
    OnlyRow(r, f);
  }

  /** Only `t`'s own constraints may refuse anything. */
  ghost predicate AcceptsBelow(w: World, t: Table) {
    Scanning(w) && forall u, a, b :: u != t ==> w.accepts(u, a, b)
  }

  lemma OnlyRow(r: Row, f: Filter)
    ensures Select([r], f) == if Selects(f, r) then [r] else []
  {
    assert [r][1..] == [];
  }

  /** Before or behind the cascade. */
  ghost predicate Phase(x: Case, now: int, db: Db) {
    db == x.Before() || db == x.Cascaded(now)
  }

  lemma CaseFacts(x: Case, m: Link)
    requires x.Valid() && m in x.Links()
    ensures x.l in x.Links() && m.col !in PSEUDO && m.table != m.refTable
    ensures m.table == x.l.table && m.col == x.l.col ==> m == x.l
    ensures m.refTable == x.l.refTable ==> x.rank(m.table) < x.rank(x.l.refTable)
    ensures !Eq(x.NewV(), Int(x.n)) && !x.NewV().Null?
  {
    hide Intact, ChildPasses;
  }

  lemma ChildHas(x: Case, now: int, m: Link, v: Value)
    requires m.col !in PSEUDO && !v.Null?
    ensures var child := Child(x.l, x.n);
      m.col != x.l.col ==>
        !Eq(Get(child, m.col), v) && !Eq(Get(PatchRow(child, map[x.l.col := x.NewV()], now), m.col), v)
    ensures m.col == x.l.col ==> Get(PatchRow(Child(x.l, x.n), map[x.l.col := x.NewV()], now), m.col) == x.NewV()
  {
  }

  lemma PhaseRows(x: Case, now: int, db: Db, u: Table)
    requires x.Valid() && Phase(x, now, db)
    ensures u != x.l.table ==> Rows(db, u) == Rows(x.Before(), u)
    ensures u == x.l.table && db == x.Cascaded(now) ==>
      Rows(db, u) == [PatchRow(Child(x.l, x.n), map[x.l.col := x.NewV()], now)]
    ensures u == x.l.table && db == x.Before() ==> Rows(db, u) == [Child(x.l, x.n)]
  {
    BeforeHere(x);
    hide Case.Before, Case.Valid, Child, PatchRow;
  }

  lemma OthersQuiet(x: Case, now: int, db: Db, m: Link, v: Value)
    requires x.Valid() && Phase(x, now, db) && m in x.Links() && m.refTable == x.l.refTable && !v.Null?
    requires m != x.l || (db == x.Cascaded(now) && v == Int(x.n))
    ensures NoneHas(db, m, v) && m.table != m.refTable
  {
    CaseFacts(x, m);
    PhaseRows(x, now, db, m.table);
    if m.table != x.l.table {
      BeforeBelow(x, m);
      assert NoneHas(x.Before(), m, v);
    }
    ChildHas(x, now, m, v);
    hide *;
    NoneHasIn(db, m, v);
  }

  lemma NoneHasIn(db: Db, m: Link, v: Value)
    requires forall r :: r in Rows(db, m.table) ==> !Eq(Get(r, m.col), v)
    ensures NoneHas(db, m, v)
  {
  }

  lemma {:induction false} EachCascades(x: Case, w: World, db: Db, refs: seq<Link>, v: Value)
    requires x.Valid() && w.schema == x.schema && AcceptsBelow(w, x.l.refTable) && Phase(x, w.now, db)
    requires Known(w.schema, db) && !v.Null? && (x.l in refs ==> v == Int(x.n))
    requires forall m :: m in refs ==> m in x.Links() && m.refTable == x.l.refTable
    ensures Each(w, db, refs, v, Some(x.patch), 0) == Result(true, if x.l in refs then x.Cascaded(w.now) else db)
    decreases |refs|
  {
    hide One, NoneHas, Case.Valid, Case.Before;
    if refs != [] {
      var m := refs[0];
      if m == x.l && db == x.Before() {
        CascadeStep(x, w);
      } else {
        OthersQuiet(x, w.now, db, m, v);
        QuietOne(w, db, m, v, Some(x.patch), 0);
      }
      var next := One(w, db, m, v, Some(x.patch), 0).db;
      EachCascades(x, w, next, refs[1..], v);
      assert x.l in refs <==> m == x.l || x.l in refs[1..];
    }
  }

  lemma {:induction false} EachColumnCascades(x: Case, w: World, db: Db, cols: seq<Column>)
    requires x.Valid() && w.schema == x.schema && AcceptsBelow(w, x.l.refTable) && Phase(x, w.now, db)
    requires Known(w.schema, db)
    ensures EachColumn(w, db, x.l.refTable, cols, [Parent(x.l, x.n)], Some(x.patch), 0)
         == Result(true, if x.l.refCol in cols then x.Cascaded(w.now) else db)
    decreases |cols|
  {
    hide Each, Case.Before, Found, Referencers, Links;
    if cols != [] {
      var c, t, parent := cols[0], x.l.refTable, Parent(x.l, x.n);
      var refs := Found(x.Links(), t, c);
      LinkIsFound(x, c);
      if c in x.patch {
        if !Get(parent, c).Null? {
          EachCascades(x, w, db, refs, Get(parent, c));
        }
        OneRow(w, db, refs, c, parent, Some(x.patch));
        var next := EachRow(w, db, refs, c, [parent], Some(x.patch), 0).db;
        EachColumnCascades(x, w, next, cols[1..]);
      } else {
        EachColumnCascades(x, w, db, cols[1..]);
      }
      assert x.l.refCol in cols <==> c == x.l.refCol || x.l.refCol in cols[1..];
    }
  }

  lemma LinkIsFound(x: Case, c: Column)
    requires x.Valid()
    ensures x.l in Found(x.Links(), x.l.refTable, c) <==> c == x.l.refCol
    ensures x.l.refCol in x.patch && Get(Parent(x.l, x.n), x.l.refCol) == Int(x.n)
    ensures x.l.refCol in EnforcedColumns(x.schema, x.l.refTable)
  {
    ReferencersMatch(x.Links(), x.l.refTable, c);
  }

  lemma OneRow(w: World, db: Db, refs: seq<Link>, c: Column, r: Row, patch: Option<Patch>)
    requires Known(w.schema, db) && forall l :: l in refs ==> l in Links(w.schema)
    ensures EachRow(w, db, refs, c, [r], patch, 0)
         == if Get(r, c).Null? then Result(true, db) else Each(w, db, refs, Get(r, c), patch, 0)
  {
    hide Each;
    assert [r][1..] == [];
  }

  /** Every row. */
  function All(): Filter {
    Where((r: Row) => true)
  }

  /** The UPDATE of the one parent row: its child already has the new value when the row's turn comes. */
  lemma CaseRun(x: Case, w: World)
    requires x.Valid() && w.schema == x.schema && AcceptsBelow(w, x.l.refTable)
    requires Known(w.schema, x.Before()) && x.l.refTable in x.Before()
    requires ChildPasses(x.Before(), x.Links(), x.l.refTable, x.patch)
    ensures Updated(w, x.Before(), x.l.refTable, All(), x.patch)
         == Written(w, x.Cascaded(w.now), x.l.refTable, [PatchRow(Parent(x.l, x.n), x.patch, w.now)])
  {
    hide EachColumn, ChildPasses, EnforcedColumns;
    var t, parent := x.l.refTable, Parent(x.l, x.n);
    assert x.Before()[t] == [parent] && x.Cascaded(w.now)[t] == [parent];
    ScanFetches(w);
    OnlyRow(parent, All());
    LinkIsFound(x, x.l.refCol);
    EachColumnCascades(x, w, x.Before(), EnforcedColumns(w.schema, t));
    assert Patched([parent], All(), x.patch, w.now) == [PatchRow(parent, x.patch, w.now)];
  }

  /** The child row carries the new value and no parent row has it. */
  lemma ChildDangles(x: Case, now: int, db: Db, parent: Row)
    requires x.Valid() && x.l.table in db && x.l.refTable in db
    requires db[x.l.table] == x.Cascaded(now)[x.l.table] && db[x.l.refTable] == [parent]
    requires !Eq(Get(parent, x.l.refCol), x.NewV())
    ensures !Intact(db, x.Links(), {})
  {
    CaseFacts(x, x.l);
    BeforeHere(x);
    hide Case.Before, Compare, Case.Valid, Links, Get, Child, PatchRow;
    ChildHas(x, now, x.l, Int(x.n));
    var r := PatchRow(Child(x.l, x.n), map[x.l.col := x.NewV()], now);
    assert r in Rows(db, x.l.table);
    assert !HasParent(db, x.l, x.NewV());
    assert !Supported(db, {}, x.l, x.NewV());
  }

  lemma SomeNumber(v: Value) returns (n: int)
    ensures !Eq(v, Int(n))
  {
    assert DoubleOf(0) == 0 && DoubleOf(1) == 1;
    n := if Eq(v, Int(0)) then 1 else 0;
  }

  /** An intact database in which the patch's own foreign keys have parents. */
  ghost predicate Passing(schema: Schema, db: Db, t: Table, patch: Patch) {
    Intact(db, Links(schema), {}) && ChildPasses(db, Links(schema), t, patch)
  }

  /** An UPDATE whose write the table's own constraints refuse, on a schema with an ON UPDATE CASCADE that has a
      value to hand down: the cascade has run by then, and nothing takes it back. */
  lemma RefusedUpdateDangles(schema: Schema, rank: Table -> nat, t: Table, patch: Patch, db0: Db, now: int)
    returns (w: World, db: Db)
    requires WellFormed(schema) && Ranked(schema, rank) && Passing(schema, db0, t, patch)
    requires !NoCascade(Links(schema), t, Some(patch))
    ensures w.schema == schema && Usual(w, db, t) && Intact(db, Links(schema), {})
    ensures var out := Updated(w, db, t, All(), patch); !out.ok && !Intact(out.db, Links(schema), {})
  {
    var l :| l in Links(schema) && l.refTable == t && l.onUpdate == Cascade && !NewOf(Some(patch), l.refCol).Null?;
    var n := SomeNumber(NewOf(Some(patch), l.refCol));
    var x := Case(schema, rank, db0, l, n, patch);
    w := World(schema, (u: Table, a: seq<Row>, b: seq<Row>) => u != t, ScanFetch(), now);
    ScanFetches(w);
    hide ScanFetch, FetchesOnly, FetchesAll, Updated, Links, Intact, ChildPasses, Compare;
    db := x.Before();
    BeforeIsIntact(x);
    CaseRun(x, w);
    EqSymmetric(Int(n), x.NewV());
    assert Get(Parent(l, n), l.refCol) == Int(n);
    ChildDangles(x, now, x.Cascaded(now), Parent(l, n));
  }

  lemma PatchedParent(x: Case, now: int)
    requires x.l.refCol != "updated_at" && !x.NewV().Null?
    ensures Get(PatchRow(Parent(x.l, x.n), x.patch, now), x.l.refCol)
         == if x.l.refCol in PSEUDO then Int(x.n) else x.NewV()
  {
  }

  /** An UPDATE that succeeds, on a schema with an ON UPDATE CASCADE of a value that no parent row can have: one for
      a pseudo-column, which the patch does not change, or a blob, which equals nothing. */
  lemma UnsafeUpdateDangles(schema: Schema, rank: Table -> nat, t: Table, patch: Patch, db0: Db, now: int)
    returns (w: World, db: Db)
    requires WellFormed(schema) && Ranked(schema, rank) && Passing(schema, db0, t, patch)
    requires !Safe(Links(schema), t, Some(patch))
    ensures w.schema == schema && Usual(w, db, t) && Intact(db, Links(schema), {})
    ensures var out := Updated(w, db, t, All(), patch); out.ok && !Intact(out.db, Links(schema), {})
  {
    var l :| l in Links(schema) && l.refTable == t && l.onUpdate == Cascade && !NewOf(Some(patch), l.refCol).Null?
      && (l.refCol in PSEUDO || !Eq(NewOf(Some(patch), l.refCol), NewOf(Some(patch), l.refCol)));
    var n := SomeNumber(NewOf(Some(patch), l.refCol));
    var x := Case(schema, rank, db0, l, n, patch);
    w := World(schema, (u: Table, a: seq<Row>, b: seq<Row>) => true, ScanFetch(), now);
    ScanFetches(w);
    hide ScanFetch, FetchesOnly, FetchesAll, Updated, Links, Intact, ChildPasses, Compare;
    db := x.Before();
    BeforeIsIntact(x);
    CaseRun(x, w);
    EqSymmetric(Int(n), x.NewV());
    BeforeHere(x);
    var parent := PatchRow(Parent(l, n), patch, now);
    PatchedParent(x, now);
    hide Case.Before, Updated, Compare, Links, ChildPasses, Case.Valid, PatchRow, Parent, Get, Intact;
    ChildDangles(x, now, x.Cascaded(now)[t := [parent]], parent);
  }

  ghost predicate Usual(w: World, db: Db, t: Table) {
    Known(w.schema, db) && t in db && FetchesOnly(w) && FetchesAll(w)
  }

  /** Every UPDATE with this patch that succeeds keeps references intact. */
  ghost predicate SuccessKeeps(schema: Schema, t: Table, patch: Patch) {
    forall w: World, db, f :: (w.schema == schema && Usual(w, db, t) && Intact(db, Links(schema), {})
      && Updated(w, db, t, f, patch).ok) ==> Intact(Updated(w, db, t, f, patch).db, Links(schema), {})
  }

  /** Every UPDATE with this patch does, whatever its status. */
  ghost predicate AlwaysKeeps(schema: Schema, t: Table, patch: Patch) {
    forall w: World, db, f :: w.schema == schema && Usual(w, db, t) && Intact(db, Links(schema), {}) ==>
      Intact(Updated(w, db, t, f, patch).db, Links(schema), {})
  }

  /** When success is enough: exactly when every cascaded value is one the parent can have, or no database lets
      the patch pass at all. */
  lemma SuccessKeepsExactly(schema: Schema, rank: Table -> nat, t: Table, patch: Patch)
    requires WellFormed(schema) && Ranked(schema, rank)
    ensures SuccessKeeps(schema, t, patch) <==>
      Safe(Links(schema), t, Some(patch)) || forall db :: !Passing(schema, db, t, patch)
  {
    hide Updated, Safe, Intact, ChildPasses, WellFormed;
    if Safe(Links(schema), t, Some(patch)) {
      forall w: World, db, f | w.schema == schema && Usual(w, db, t) && Intact(db, Links(schema), {})
        && Updated(w, db, t, f, patch).ok
        ensures Intact(Updated(w, db, t, f, patch).db, Links(schema), {})
      {
        UpdateKeepsIntegrity(w, rank, db, t, f, patch);
      }
    } else if db0 :| Passing(schema, db0, t, patch) {
      var w, db := UnsafeUpdateDangles(schema, rank, t, patch, db0, 0);
      assert !SuccessKeeps(schema, t, patch);
    } else {
      forall w: World, db, f | w.schema == schema && Usual(w, db, t) && Intact(db, Links(schema), {})
        ensures !Updated(w, db, t, f, patch).ok
      {
        NotPassing(w, db, t, f, patch);
      }
    }
  }

  lemma NotPassing(w: World, db: Db, t: Table, f: Filter, patch: Patch)
    requires Known(w.schema, db) && t in db && Intact(db, Links(w.schema), {}) && !Passing(w.schema, db, t, patch)
    ensures Updated(w, db, t, f, patch) == Result(false, db)
  {
  }

  /** When nothing can go wrong, whatever the status: exactly when no ON UPDATE CASCADE has a value to hand down,
      or no database lets the patch pass at all. */
  lemma {:induction false} AlwaysKeepsExactly(schema: Schema, rank: Table -> nat, t: Table, patch: Patch)
    requires WellFormed(schema) && Ranked(schema, rank)
    ensures AlwaysKeeps(schema, t, patch) <==>
      NoCascade(Links(schema), t, Some(patch)) || forall db :: !Passing(schema, db, t, patch)
  {
    hide Updated, NoCascade, Intact, ChildPasses, WellFormed;
    if NoCascade(Links(schema), t, Some(patch)) {
      forall w: World, db, f | w.schema == schema && Usual(w, db, t) && Intact(db, Links(schema), {})
        ensures Intact(Updated(w, db, t, f, patch).db, Links(schema), {})
      {
        UpdateKeepsIntegrity(w, rank, db, t, f, patch);
      }
    } else if db0 :| Passing(schema, db0, t, patch) {
      var w, db := RefusedUpdateDangles(schema, rank, t, patch, db0, 0);
      assert !AlwaysKeeps(schema, t, patch);
    } else {
      forall w: World, db, f | w.schema == schema && Usual(w, db, t) && Intact(db, Links(schema), {})
        ensures Intact(Updated(w, db, t, f, patch).db, Links(schema), {})
      {
        NotPassing(w, db, t, f, patch);
      }
    }
  }

  // ---------------------------------------------------------------- rows a query does not fetch

  /** When the query execution fetches none of the rows, nothing is enforced, and the scan removes them all. */
  lemma UnfetchedDelete(w: World, db: Db, t: Table, f: Filter)
    requires Known(w.schema, db) && t in db && w.fetch(t, db[t], f) == [] && w.accepts(t, db[t], Reject(db[t], f))
    ensures Deleted(w, db, t, f) == Result(true, db[t := Reject(db[t], f)])
  {
    NothingAffected(w, db, t, EnforcedColumns(w.schema, t), None, 0);
  }

  /** A parent, its child and nothing else. */
  function ParentAndChild(links: seq<Link>, l: Link, n: int): Db {
    map u | u in Tables(links) :: if u == l.refTable then [Parent(l, n)] else if u == l.table then [Child(l, n)] else []
  }

  lemma {:induction false} ParentAndChildIntact(schema: Schema, l: Link, n: int)
    requires WellFormed(schema) && l in Links(schema) && l.table != l.refTable
    requires FkOf(Links(schema), l.refTable, l.refCol).None?
    ensures Intact(ParentAndChild(Links(schema), l, n), Links(schema), {})
  {
    var db := ParentAndChild(Links(schema), l, n);
    forall m, x | m in Links(schema) && x in Rows(db, m.table)
      ensures Supported(db, {}, m, Get(x, m.col))
    {
      PairValues(schema, l, n, m);
      IntEq(n);
      hide Compare, Get, Parent, Child, WellFormed, FkOf;
      assert x == (if m.table == l.refTable then Parent(l, n) else Child(l, n));
      SupportedByParent(db, m, Get(x, m.col), Parent(l, n));
    }
  }

  lemma PairValues(schema: Schema, l: Link, n: int, m: Link)
    requires WellFormed(schema) && l in Links(schema) && m in Links(schema) && l.table != l.refTable
    requires FkOf(Links(schema), l.refTable, l.refCol).None?
    ensures Get(Parent(l, n), l.refCol) == Int(n)
    ensures m.table == l.refTable ==> Get(Parent(l, n), m.col) == Null
    ensures m.table == l.table ==> Get(Child(l, n), m.col) == if m == l then Int(n) else Null
  {
  }

  /** For every link between two tables: a query execution that may miss rows, such as one through an index whose
      chain is too long, lets a DELETE remove a parent and keep its child, whatever ON DELETE says. */
  lemma {:induction false} MissedRowDangles(schema: Schema, l: Link, n: int, now: int) returns (w: World, db: Db)
    requires WellFormed(schema) && l in Links(schema) && l.table != l.refTable
    requires FkOf(Links(schema), l.refTable, l.refCol).None?
    ensures w.schema == schema && FetchesOnly(w) && Known(schema, db) && l.refTable in db
    ensures Intact(db, Links(schema), {})
    ensures var out := Deleted(w, db, l.refTable, All()); out.ok && !Intact(out.db, Links(schema), {})
  {
    w := World(schema, (u: Table, a: seq<Row>, b: seq<Row>) => true,
               (u: Table, rows: seq<Row>, f: Filter) => [], now);
    db := ParentAndChild(Links(schema), l, n);
    ParentAndChildIntact(schema, l, n);
    hide Compare, WellFormed, Intact, Deleted, Links;
    UnfetchedDelete(w, db, l.refTable, All());
    assert [Parent(l, n)][1..] == [];
    assert Reject(db[l.refTable], All()) == [];
    var after := db[l.refTable := []];
    LonelyChild(after, Links(schema), l, Child(l, n)) by {
      ChildValue(schema, l, n);
    }
  }

  lemma ChildValue(schema: Schema, l: Link, n: int)
    requires WellFormed(schema) && l in Links(schema)
    ensures Get(Child(l, n), l.col) == Int(n)
  {
  }

  lemma LonelyChild(db: Db, links: seq<Link>, l: Link, g: Row)
    requires l in links && g in Rows(db, l.table) && Rows(db, l.refTable) == [] && !Get(g, l.col).Null?
    ensures !Intact(db, links, {})
  {
    assert !HasParent(db, l, Get(g, l.col)) && !Supported(db, {}, l, Get(g, l.col));
  }

  // ---------------------------------------------------------------- patches that can pass

  /** No link's table has this rank or a higher one. */
  ghost predicate Tops(links: seq<Link>, rank: Table -> nat, top: nat) {
    forall l :: l in links ==> rank(l.refTable) < top && rank(l.table) < top
  }

  /** A value that can stand in a column of some intact database: a whole number in a pseudo-column; elsewhere one
      that equals itself and, in a foreign key column, can stand in the column referred to. */
  ghost predicate Placeable(links: seq<Link>, rank: Table -> nat, top: nat, t: Table, c: Column, v: Value)
    decreases if rank(t) < top then top - rank(t) else 0
  {
    if c in PSEUDO then exists k: int :: Eq(Int(k), v)
    else
      var fk := FkOf(links, t, c);
      && Eq(v, v)
      && (fk.Some? && rank(t) < rank(fk.value.refTable) < top ==>
            Placeable(links, rank, top, fk.value.refTable, fk.value.refCol, v))
  }

  ghost predicate PatchPlaceable(links: seq<Link>, rank: Table -> nat, top: nat, t: Table, patch: Patch) {
    forall c :: c in patch && FkOf(links, t, c).Some? && !patch[c].Null? ==>
      Placeable(links, rank, top, FkOf(links, t, c).value.refTable, FkOf(links, t, c).value.refCol, patch[c])
  }

  /** What stands in an intact database can. */
  lemma {:induction false} StandsSoPlaceable(schema: Schema, rank: Table -> nat, top: nat, db: Db, t: Table, c: Column,
                                             p: Row, v: Value)
    requires WellFormed(schema) && Ranked(schema, rank) && Tops(Links(schema), rank, top)
    requires Intact(db, Links(schema), {}) && p in Rows(db, t) && Eq(Get(p, c), v) && !v.Null?
    ensures Placeable(Links(schema), rank, top, t, c, v)
    decreases if rank(t) < top then top - rank(t) else 0
  {
    hide Compare, Links;
    if c !in PSEUDO {
      EqSymmetric(Get(p, c), v);
      EqTransitive(v, Get(p, c), v);
      var fk := FkOf(Links(schema), t, c);
      if fk.Some? {
        var l, w := fk.value, Get(p, c);
        assert Supported(db, {}, l, Get(p, l.col));
        EqNull(v);
        var q :| q in Rows(db, l.refTable) && Eq(Get(q, l.refCol), w);
        EqTransitive(Get(q, l.refCol), w, v);
        StandsSoPlaceable(schema, rank, top, db, l.refTable, l.refCol, q, v);
      }
    }
  }

  function Put(db: Db, t: Table, r: Row): Db {
    db[t := Rows(db, t) + [r]]
  }

  lemma PutKeeps(db: Db, t: Table, r: Row, l: Link, v: Value)
    ensures ValueHasParent(db, l, v) ==> ValueHasParent(Put(db, t, r), l, v)
    ensures r in Rows(Put(db, t, r), t)
  {
    hide Get, Compare;
    if HasParent(db, l, v) {
      var p :| p in Rows(db, l.refTable) && Eq(Get(p, l.refCol), v);
      assert p in Rows(Put(db, t, r), l.refTable);
    }
  }

  lemma PutIntact(db: Db, links: seq<Link>, t: Table, r: Row)
    requires Intact(db, links, {})
    requires forall l :: l in links && l.table == t ==> ValueHasParent(db, l, Get(r, l.col))
    ensures Intact(Put(db, t, r), links, {})
  {
    hide Get, Compare;
    forall l, x | l in links && x in Rows(Put(db, t, r), l.table)
      ensures Supported(Put(db, t, r), {}, l, Get(x, l.col))
    {
      if x in Rows(db, l.table) {
        assert Supported(db, {}, l, Get(x, l.col));
      }
      PutKeeps(db, t, r, l, Get(x, l.col));
    }
  }

  /** More rows in a database: whatever had a parent still has one. */
  ghost predicate Extends(db: Db, more: Db) {
    forall l, v :: ValueHasParent(db, l, v) ==> ValueHasParent(more, l, v)
  }

  /** Puts the value there, and first whatever it refers to. */
  lemma {:induction false} Place(schema: Schema, rank: Table -> nat, top: nat, db: Db, t: Table, c: Column, v: Value)
    returns (more: Db)
    requires WellFormed(schema) && Ranked(schema, rank) && Tops(Links(schema), rank, top)
    requires Intact(db, Links(schema), {})
    requires Placeable(Links(schema), rank, top, t, c, v) && !v.Null?
    ensures Intact(more, Links(schema), {}) && Extends(db, more)
    ensures exists p :: p in Rows(more, t) && Eq(Get(p, c), v)
    decreases if rank(t) < top then top - rank(t) else 0
  {
    hide Compare, Links, Intact;
    more := db;
    var k := 0;
    if c in PSEUDO {
      k :| Eq(Int(k), v);
    } else {
      var fk := FkOf(Links(schema), t, c);
      if fk.Some? {
        more := Place(schema, rank, top, db, fk.value.refTable, fk.value.refCol, v);
        assert HasParent(more, fk.value, v);
      }
    }
    var r := Row(k, k, k, if c in PSEUDO then map[] else map[c := v]);
    forall l | l in Links(schema) && l.table == t
      ensures ValueHasParent(more, l, Get(r, l.col))
    {
      if l.col == c {
        assert FkOf(Links(schema), t, c) == Some(l);
      }
    }
    PutIntact(more, Links(schema), t, r);
    var before := more;
    more := Put(before, t, r);
    forall l, u | ValueHasParent(db, l, u)
      ensures ValueHasParent(more, l, u)
    {
      PutKeeps(before, t, r, l, u);
    }
    assert r in Rows(more, t) && Eq(Get(r, c), v);
  }

  lemma {:induction false} PlaceAll(schema: Schema, rank: Table -> nat, top: nat, t: Table, patch: Patch,
                                    cols: set<Column>) returns (db: Db)
    requires WellFormed(schema) && Ranked(schema, rank) && Tops(Links(schema), rank, top)
    requires PatchPlaceable(Links(schema), rank, top, t, patch) && cols <= patch.Keys
    ensures Intact(db, Links(schema), {})
    ensures forall c :: c in cols && FkOf(Links(schema), t, c).Some? ==>
      ValueHasParent(db, FkOf(Links(schema), t, c).value, patch[c])
    decreases |cols|
  {
    hide Compare, Links, FkOf, Placeable;
    if cols == {} {
      return map[];
    }
    var c :| c in cols;
    db := PlaceAll(schema, rank, top, t, patch, cols - {c});
    var fk := FkOf(Links(schema), t, c);
    if fk.Some? && !patch[c].Null? {
      var before := db;
      db := Place(schema, rank, top, before, fk.value.refTable, fk.value.refCol, patch[c]);
      assert HasParent(db, fk.value, patch[c]);
    }
  }

  /** The patches that some intact database lets past the child check. */
  lemma PassingExactly(schema: Schema, rank: Table -> nat, top: nat, t: Table, patch: Patch)
    requires WellFormed(schema) && Ranked(schema, rank) && Tops(Links(schema), rank, top)
    ensures (exists db :: Passing(schema, db, t, patch)) <==> PatchPlaceable(Links(schema), rank, top, t, patch)
  {
    hide Compare, Links, FkOf, Placeable, Intact, WellFormed;
    if PatchPlaceable(Links(schema), rank, top, t, patch) {
      var db := PlaceAll(schema, rank, top, t, patch, patch.Keys);
      assert Passing(schema, db, t, patch);
    }
    if db: Db :| Passing(schema, db, t, patch) {
      forall c | c in patch && FkOf(Links(schema), t, c).Some? && !patch[c].Null?
        ensures Placeable(Links(schema), rank, top, FkOf(Links(schema), t, c).value.refTable,
                          FkOf(Links(schema), t, c).value.refCol, patch[c])
      {
        var l := FkOf(Links(schema), t, c).value;
        assert ValueHasParent(db, l, patch[c]);
        var p :| p in Rows(db, l.refTable) && Eq(Get(p, l.refCol), patch[c]);
        StandsSoPlaceable(schema, rank, top, db, l.refTable, l.refCol, p, patch[c]);
      }
    }
  }

  // ---------------------------------------------------------------- INSERT and DEFAULT

  /** Every successful INSERT into an intact database keeps references intact. */
  ghost predicate InsertKeeps(schema: Schema) {
    forall w: World, db, t, r :: (w.schema == schema && t in db && Intact(db, Links(schema), {})
      && Added(w, db, t, r).ok) ==> Intact(Added(w, db, t, r).db, Links(schema), {})
  }

  /** A DEFAULT that is its own parent: the key refers to its own column. */
  predicate SelfSupporting(l: Link, v: Value) {
    l.table == l.refTable && l.col == l.refCol && Eq(v, v)
  }

  predicate Harmless(schema: Schema, l: Link) {
    var d := DefaultOf(schema, l.table, l.col);
    d.None? || d.value.Null? || SelfSupporting(l, d.value)
  }

  /** The row that omits the column; a stored column of its own table that the key refers to is NULL in it. */
  function Omitting(l: Link, n: int): Row {
    Row(n, n, 0,
        if l.table == l.refTable && l.refCol !in PSEUDO && l.refCol != l.col then map[l.refCol := Null] else map[])
  }

  lemma OmittingStored(schema: Schema, l: Link, n: int)
    requires WellFormed(schema) && l in Links(schema) && DefaultOf(schema, l.table, l.col).Some?
    ensures var r, v := Omitting(l, n), DefaultOf(schema, l.table, l.col).value;
      var x := Stored(schema, l.table, r);
      && l.col !in r.fields && ChildPasses(map[l.table := []], Links(schema), l.table, r.fields)
      && Get(x, l.col) == v
      && (l.table == l.refTable ==> Get(x, l.refCol) in {Int(n), Null} || (l.refCol == l.col && Get(x, l.refCol) == v))
  {
    hide Compare, Completed, Links, DefaultIn, FkOf;
    StoredColumn(schema, l.table, Omitting(l, n), l.col);
    if l.refCol !in PSEUDO {
      StoredColumn(schema, l.table, Omitting(l, n), l.refCol);
    }
  }

  /** INSERT of such a row into an empty table: the check has nothing to look at, and the DEFAULT has no parent. */
  lemma {:induction false} DefaultDangles(schema: Schema, l: Link, now: int) returns (w: World, db: Db, r: Row)
    requires WellFormed(schema) && l in Links(schema) && !Harmless(schema, l)
    ensures w.schema == schema && l.table in db && Intact(db, Links(schema), {}) && l.col !in r.fields
    ensures var out := Added(w, db, l.table, r);
      && out.ok && out.db == map[l.table := [Stored(schema, l.table, r)]]
      && Get(Stored(schema, l.table, r), l.col) == DefaultOf(schema, l.table, l.col).value
      && !Intact(out.db, Links(schema), {})
  {
    var v := DefaultOf(schema, l.table, l.col).value;
    var n := SomeNumber(v);
    EqSymmetric(v, Int(n));
    EqNull(v);
    w := World(schema, (u: Table, a: seq<Row>, b: seq<Row>) => true, ScanFetch(), now);
    db := map[l.table := []];
    r := Omitting(l, n);
    OmittingStored(schema, l, n);
    hide Compare, Completed, Links, DefaultIn, Get, WellFormed, ChildPasses, Omitting, Stored;
    var x := Stored(schema, l.table, r);
    assert db[l.table] + [x] == [x];
    var after := map[l.table := [x]];
    assert Added(w, db, l.table, r) == Result(true, after);
    LoneRowDangles(after, Links(schema), l, x);
  }

  lemma LoneRowDangles(db: Db, links: seq<Link>, l: Link, x: Row)
    requires db == map[l.table := [x]] && l in links && !Get(x, l.col).Null?
    requires l.table == l.refTable ==> !Eq(Get(x, l.refCol), Get(x, l.col))
    ensures !Intact(db, links, {})
  {
    hide Compare, Get;
    var v := Get(x, l.col);
    assert x in Rows(db, l.table);
    assert forall p :: p in Rows(db, l.refTable) ==> l.refTable == l.table && p == x;
    assert !HasParent(db, l, v) && !Supported(db, {}, l, v);
  }

  /** All INSERTs into all intact databases keep references intact exactly when no foreign key column has a DEFAULT
      (that is not NULL and not its own parent). */
  lemma InsertKeepsExactly(schema: Schema)
    requires WellFormed(schema)
    ensures InsertKeeps(schema) <==> forall l :: l in Links(schema) ==> Harmless(schema, l)
  {
    hide Added, Intact, WellFormed, Harmless;
    if forall l :: l in Links(schema) ==> Harmless(schema, l) {
      forall w: World, db, t, r | w.schema == schema && t in db && Intact(db, Links(schema), {})
        && Added(w, db, t, r).ok
        ensures Intact(Added(w, db, t, r).db, Links(schema), {})
      {
        HarmlessKeeps(w, db, t, r);
      }
    } else {
      var l :| l in Links(schema) && !Harmless(schema, l);
      var w, db, r := DefaultDangles(schema, l, 0);
      assert !InsertKeeps(schema);
    }
  }

  lemma HarmlessKeeps(w: World, db: Db, t: Table, r: Row)
    requires WellFormed(w.schema) && t in db && Intact(db, Links(w.schema), {}) && Added(w, db, t, r).ok
    requires forall l :: l in Links(w.schema) ==> Harmless(w.schema, l)
    ensures Intact(Added(w, db, t, r).db, Links(w.schema), {})
  {
    hide Compare, Completed, Links, DefaultIn, Intact;
    AddIntactExactly(w, db, t, r);
    var after, x := Added(w, db, t, r).db, Stored(w.schema, t, r);
    forall l | l in Links(w.schema) && l.table == t && l.col !in r.fields && DefaultOf(w.schema, t, l.col).Some?
      ensures ValueHasParent(after, l, DefaultOf(w.schema, t, l.col).value)
    {
      assert Harmless(w.schema, l) && l.col !in PSEUDO;
      StoredColumn(w.schema, t, r, l.col);
      assert x in Rows(after, t);
    }
  }

  // ---------------------------------------------------------------- a table that references itself

  // Row 2 references row 1, row 3 references row 2, all in one table.

  const ROOT := Row(1, 0, 0, map[])
  const CHILD := Row(2, 0, 0, map["p" := Int(1)])
  const GRANDCHILD := Row(3, 0, 0, map["p" := Int(2)])
  const SELF_SCHEMA := [TableDef("t", [ColumnDef("p", Some(Fk("t", "id", SetNull, Restrict)), None)])]
  const SELF_LINK := Link("t", "p", "t", "id", SetNull, Restrict)
  const FAMILY := map["t" := [ROOT, CHILD, GRANDCHILD]]

  function Roots(): Filter {
    Where((r: Row) => Get(r, "p").Null?)
  }

  lemma SelfLinks()
    ensures Links(SELF_SCHEMA) == [SELF_LINK]
    ensures EnforcedColumns(SELF_SCHEMA, "t") == ["p", "id", "created_at", "updated_at"]
  {
    var columns := SELF_SCHEMA[0].columns;
    assert columns[1..] == [] && SELF_SCHEMA[1..] == [];
    assert ColumnLinks("t", columns) == [SELF_LINK] + ColumnLinks("t", []);
    assert ColumnNames(columns) == ["p"];
  }

  lemma SelfFound(c: Column)
    ensures Found([SELF_LINK], "t", c) == if c == "id" then [SELF_LINK] else []
  {
    assert [SELF_LINK][1..] == [];
    assert Referencers([SELF_LINK], "t", c) == (if c == "id" then [SELF_LINK] else []) + Referencers([], "t", c);
  }

  lemma {:induction false} SkipColumn(w: World, db: Db, t: Table, cols: seq<Column>, r: Row, patch: Option<Patch>,
                                      depth: nat)
    requires Known(w.schema, db) && depth <= FK_MAX_CASCADE_DEPTH && cols != []
    requires Found(Links(w.schema), t, cols[0]) == [] || !Touches(patch, cols[0])
    ensures EachColumn(w, db, t, cols, [r], patch, depth) == EachColumn(w, db, t, cols[1..], [r], patch, depth)
  {
    assert [r][1..] == [];
    assert EachRow(w, db, [], cols[0], [r], patch, depth) == Result(true, db);
  }

  /** What SET NULL makes of the table before the filter is evaluated again. */
  function Nulled(now: int): seq<Row> {
    [ROOT, PatchRow(CHILD, map["p" := Null], now), GRANDCHILD]
  }

  lemma PIs(r: Row, n: int)
    requires r.fields == map["p" := Int(n)] && n in [1, 2]
    ensures Get(r, "p") == Int(n) && (Selects(ColumnIs("p", Int(1)), r) <==> n == 1) && !Selects(Roots(), r)
  {
    assert DoubleOf(1) == 1 && DoubleOf(2) == 2;
  }

  lemma NoP(r: Row)
    requires r.fields == map[] || r.fields == map["p" := Null]
    ensures Get(r, "p") == Null && !Selects(ColumnIs("p", Int(1)), r) && Selects(Roots(), r)
  {
  }

  lemma NulledIs(now: int)
    ensures Patched(FAMILY["t"], ColumnIs("p", Int(1)), map["p" := Null], now) == Nulled(now)
    ensures Reject(Nulled(now), Roots()) == [GRANDCHILD]
  {
    var child := PatchRow(CHILD, map["p" := Null], now);
    assert child.fields == map["p" := Null];
    PIs(CHILD, 1);
    PIs(GRANDCHILD, 2);
    NoP(ROOT);
    NoP(child);
    hide Selects;
    assert Nulled(now)[1..] == [child, GRANDCHILD] && [child, GRANDCHILD][1..] == [GRANDCHILD];
    assert [GRANDCHILD][1..] == [] && Reject([GRANDCHILD], Roots()) == [GRANDCHILD];
    assert Reject([child, GRANDCHILD], Roots()) == [GRANDCHILD];
  }

  lemma FamilyIntact()
    ensures Intact(FAMILY, [SELF_LINK], {})
    ensures Select(FAMILY["t"], Roots()) == [ROOT]
    ensures Select(FAMILY["t"], ColumnIs("p", Int(1))) == [CHILD]
  {
    var rows := FAMILY["t"];
    PIs(CHILD, 1);
    PIs(GRANDCHILD, 2);
    NoP(ROOT);
    assert DoubleOf(1) == 1 && DoubleOf(2) == 2;
    assert ROOT in Rows(FAMILY, "t") && CHILD in Rows(FAMILY, "t");
    assert HasParent(FAMILY, SELF_LINK, Int(1)) && HasParent(FAMILY, SELF_LINK, Int(2));
    hide Selects;
    assert rows[1..] == [CHILD, GRANDCHILD] && [CHILD, GRANDCHILD][1..] == [GRANDCHILD] && [GRANDCHILD][1..] == [];
    SelectNone([CHILD, GRANDCHILD], Roots());
    assert Select([GRANDCHILD], ColumnIs("p", Int(1))) == [];
    assert Select([CHILD, GRANDCHILD], ColumnIs("p", Int(1))) == [CHILD];
  }

  /** Nothing refers to column p, so clearing it needs no more work. */
  lemma ClearsChild(w: World)
    requires w.schema == SELF_SCHEMA && Known(w.schema, FAMILY) && Scanning(w) && forall a, b :: w.accepts("t", a, b)
    requires SELF_LINK in Links(w.schema)
    ensures SetOne(w, FAMILY, SELF_LINK, Int(1), Null, 1) == Result(true, map["t" := Nulled(w.now)])
  {
    hide EachColumn, Links, Select, Patched, Compare, EachRow;
    ScanFetches(w);
    var one, cols := map["p" := Null], ["p", "id", "created_at", "updated_at"];
    SelfLinks();
    FamilyIntact();
    NulledIs(w.now);
    SelfFound("p");
    SkipColumn(w, FAMILY, "t", cols, CHILD, Some(one), 1);
    SkipColumn(w, FAMILY, "t", cols[1..], CHILD, Some(one), 1);
    SkipColumn(w, FAMILY, "t", cols[2..], CHILD, Some(one), 1);
    SkipColumn(w, FAMILY, "t", cols[3..], CHILD, Some(one), 1);
    NoColumns(w, FAMILY, [CHILD], Some(one), 1);
    assert cols[1..][1..] == cols[2..] && cols[2..][1..] == cols[3..] && cols[3..][1..] == [];
    assert Enforced(w, FAMILY, "t", [CHILD], Some(one), 1) == Result(true, FAMILY);
    assert FAMILY["t" := Nulled(w.now)] == map["t" := Nulled(w.now)];
  }

  lemma NoColumns(w: World, db: Db, affected: seq<Row>, patch: Option<Patch>, depth: nat)
    requires Known(w.schema, db) && depth <= FK_MAX_CASCADE_DEPTH
    ensures EachColumn(w, db, "t", [], affected, patch, depth) == Result(true, db)
  {
  }

  lemma RootGoes(w: World)
    requires w.schema == SELF_SCHEMA && Known(w.schema, FAMILY) && Scanning(w) && forall a, b :: w.accepts("t", a, b)
    ensures Enforced(w, FAMILY, "t", [ROOT], None, 0) == Result(true, map["t" := Nulled(w.now)])
  {
    hide EachColumn, Links, Compare, SetOne, Found;
    var cols := ["p", "id", "created_at", "updated_at"];
    var after: Db := map["t" := Nulled(w.now)];
    SelfLinks();
    SelfFound("p");
    SelfFound("id");
    SelfFound("created_at");
    SelfFound("updated_at");
    ClearsChild(w);
    SkipColumn(w, FAMILY, "t", cols, ROOT, None, 0);
    assert Known(w.schema, after);
    assert One(w, FAMILY, SELF_LINK, Int(1), None, 0) == Result(true, after);
    assert [SELF_LINK][1..] == [] && [ROOT][1..] == [];
    assert Each(w, FAMILY, [SELF_LINK], Int(1), None, 0) == Result(true, after);
    assert EachRow(w, FAMILY, [SELF_LINK], "id", [ROOT], None, 0) == Result(true, after);
    IdColumn(w, FAMILY, after, cols[1..]);
    SkipColumn(w, after, "t", cols[2..], ROOT, None, 0);
    SkipColumn(w, after, "t", cols[3..], ROOT, None, 0);
    NoColumns(w, after, [ROOT], None, 0);
    assert cols[1..][1..] == cols[2..] && cols[2..][1..] == cols[3..] && cols[3..][1..] == [];
  }

  lemma IdColumn(w: World, db: Db, after: Db, cols: seq<Column>)
    requires Known(w.schema, db) && Known(w.schema, after) && cols != [] && cols[0] == "id"
    requires Found(Links(w.schema), "t", "id") == [SELF_LINK]
    requires SELF_LINK in Links(w.schema) && EachRow(w, db, [SELF_LINK], "id", [ROOT], None, 0) == Result(true, after)
    ensures EachColumn(w, db, "t", cols, [ROOT], None, 0) == EachColumn(w, after, "t", cols[1..], [ROOT], None, 0)
  {
    hide EachRow, Links, Found;
  }

  /** Deleting the rows without a parent from a table that references itself with ON DELETE SET NULL: only row 1 is
      affected, but SET NULL on row 2 makes the re-evaluated filter delete row 2 as well. Row 3 still refers to it. */
  lemma SelfReferenceDangles(now: int)
    ensures var w := World(SELF_SCHEMA, (t: Table, a: seq<Row>, b: seq<Row>) => true, ScanFetch(), now);
      && Known(SELF_SCHEMA, FAMILY) && Intact(FAMILY, Links(SELF_SCHEMA), {})
      && Select(FAMILY["t"], Roots()) == [ROOT]
      && Deleted(w, FAMILY, "t", Roots()) == Result(true, map["t" := [GRANDCHILD]])
      && !Intact(map["t" := [GRANDCHILD]], Links(SELF_SCHEMA), {})
  {
    hide Enforced, Reject, Select;
    var w := World(SELF_SCHEMA, (t: Table, a: seq<Row>, b: seq<Row>) => true, ScanFetch(), now);
    SelfLinks();
    FamilyIntact();
    RootGoes(w);
    NulledIs(now);
    var left: Db := map["t" := [GRANDCHILD]];
    var nulled: Db := map["t" := Nulled(now)];
    assert nulled["t" := [GRANDCHILD]] == left;
    assert GRANDCHILD in Rows(left, "t") && Get(GRANDCHILD, "p") == Int(2);
    assert DoubleOf(2) == 2 && DoubleOf(3) == 3;
    assert !HasParent(left, SELF_LINK, Int(2));
    assert SELF_LINK in [SELF_LINK] && !Supported(left, {}, SELF_LINK, Get(GRANDCHILD, "p"));
  }

  // When a DELETE on such a table keeps references.

  /** One key, from a column of the table to its own id, with ON DELETE SET NULL. */
  predicate SelfOnly(schema: Schema, l: Link) {
    Links(schema) == [l] && l.table == l.refTable && l.refCol == "id" && l.onDelete == SetNull && l.col !in PSEUDO
  }

  function Clear(x: Row, l: Link, now: int): Row {
    PatchRow(x, map[l.col := Null], now)
  }

  predicate RefersToOne(x: Row, l: Link, gone: seq<Row>) {
    exists a :: a in gone && Eq(Get(x, l.col), Int(a.id))
  }

  /** The rows with the references to the given ones cleared. */
  function Cleared(rows: seq<Row>, l: Link, gone: seq<Row>, now: int): (out: seq<Row>)
    ensures |out| == |rows|
  {
    seq(|rows|, i requires 0 <= i < |rows| => if RefersToOne(rows[i], l, gone) then Clear(rows[i], l, now) else rows[i])
  }

  lemma ClearedNext(rows: seq<Row>, l: Link, gone: seq<Row>, a: Row, now: int)
    requires l.col !in PSEUDO
    ensures Patched(Cleared(rows, l, gone, now), ColumnIs(l.col, Int(a.id)), map[l.col := Null], now)
         == Cleared(rows, l, gone + [a], now)
  {
    hide Compare;
    EqNull(Int(a.id));
    forall i | 0 <= i < |rows|
      ensures Patched(Cleared(rows, l, gone, now), ColumnIs(l.col, Int(a.id)), map[l.col := Null], now)[i]
           == Cleared(rows, l, gone + [a], now)[i]
    {
      assert forall b :: b in gone + [a] <==> b in gone || b == a;
      assert Get(Clear(rows[i], l, now), l.col) == Null;
    }
  }

  /** Rows that were cleared already stay as they are. */
  lemma ClearedAgain(rows: seq<Row>, l: Link, gone: seq<Row>, more: seq<Row>, now: int)
    requires forall a :: a in more <==> a in gone
    ensures Cleared(rows, l, gone, now) == Cleared(rows, l, more, now)
  {
    hide Compare;
  }

  lemma OneClears(w: World, db: Db, l: Link, rows: seq<Row>, gone: seq<Row>, a: Row)
    requires SelfOnly(w.schema, l) && l.table in db && db[l.table] == Cleared(rows, l, gone, w.now)
    ensures Known(w.schema, db) && l in Links(w.schema)
    ensures var out := Each(w, db, [l], Int(a.id), None, 0);
      out.ok ==> out.db == db[l.table := Cleared(rows, l, gone + [a], w.now)]
  {
    hide SetOne, Links, Cleared, Patched;
    assert Links(w.schema)[0] == l;
    Actions.SetOnePlain(w, db, l, Int(a.id), Null, 1);
    ClearedNext(rows, l, gone, a, w.now);
    assert [l][1..] == [];
    assert One(w, db, l, Int(a.id), None, 0) == SetOne(w, db, l, Int(a.id), Null, 1);
  }

  lemma {:induction false} RowsClear(w: World, db: Db, l: Link, rows: seq<Row>, gone: seq<Row>, affected: seq<Row>)
    requires SelfOnly(w.schema, l) && l.table in db && db[l.table] == Cleared(rows, l, gone, w.now)
    requires Known(w.schema, db) && l in Links(w.schema)
    ensures var out := EachRow(w, db, [l], "id", affected, None, 0);
      out.ok ==> out.db == db[l.table := Cleared(rows, l, gone + affected, w.now)]
    decreases |affected|
  {
    hide Each, Links, Cleared;
    if affected == [] {
      assert gone + affected == gone && db[l.table := db[l.table]] == db;
    } else {
      var a := affected[0];
      OneClears(w, db, l, rows, gone, a);
      var first := Each(w, db, [l], Int(a.id), None, 0);
      if first.ok {
        RowsClear(w, first.db, l, rows, gone + [a], affected[1..]);
        assert gone + [a] + affected[1..] == gone + affected;
      }
    }
  }

  lemma {:induction false} ColumnsClear(w: World, db: Db, l: Link, rows: seq<Row>, gone: seq<Row>, affected: seq<Row>,
                                        cols: seq<Column>)
    requires SelfOnly(w.schema, l) && l.table in db && db[l.table] == Cleared(rows, l, gone, w.now)
    requires Known(w.schema, db) && (gone == [] || gone == affected)
    ensures var out := EachColumn(w, db, l.table, cols, affected, None, 0);
      out.ok ==> out.db == db[l.table := Cleared(rows, l, if "id" in cols then affected else gone, w.now)]
    decreases |cols|
  {
    hide EachRow, Cleared, Found;
    if cols == [] {
      assert db[l.table := db[l.table]] == db;
    } else {
      var c, refs := cols[0], Found(Links(w.schema), l.table, cols[0]);
      assert "id" in cols <==> c == "id" || "id" in cols[1..];
      SelfFoundIn(w, l, c);
      var first := EachRow(w, db, refs, c, affected, None, 0);
      if c == "id" {
        RowsClear(w, db, l, rows, gone, affected);
        ClearedAgain(rows, l, gone + affected, affected, w.now);
        if first.ok {
          ColumnsClear(w, first.db, l, rows, affected, affected, cols[1..]);
        }
      } else {
        Actions.EachRowNoRefs(w, db, c, affected, None, 0);
        ColumnsClear(w, db, l, rows, gone, affected, cols[1..]);
      }
    }
  }

  lemma SelfFoundIn(w: World, l: Link, c: Column)
    requires SelfOnly(w.schema, l)
    ensures l in Links(w.schema) && Found(Links(w.schema), l.table, c) == if c == "id" then [l] else []
  {
    assert Links(w.schema)[0] == l && [l][1..] == [];
    assert Referencers([l], l.table, c) == (if c == "id" then [l] else []) + Referencers([], l.table, c);
  }

  lemma {:induction false} IdIsEnforced(schema: Schema, t: Table)
    ensures "id" in EnforcedColumns(schema, t)
  {
    if schema != [] && schema[0].name != t {
      IdIsEnforced(schema[1..], t);
    } else {
      assert PSEUDO[0] == "id";
    }
  }

  /** A row that was not selected, is selected once its reference to a selected row is cleared, and is referred to by
      a row that stays. */
  ghost predicate Loses(rows: seq<Row>, l: Link, f: Filter, now: int) {
    exists q, r, g :: q in rows && r in rows && g in rows && Selects(f, q) && Eq(Get(r, l.col), Int(q.id))
      && !Selects(f, r) && Selects(f, Clear(r, l, now)) && !Selects(f, g) && Eq(Get(g, l.col), Int(r.id))
  }

  predicate DistinctIds(rows: seq<Row>) {
    forall x, y :: x in rows && y in rows && Eq(Int(x.id), Int(y.id)) ==> x == y
  }

  /** On a table that references itself with ON DELETE SET NULL a successful DELETE keeps references intact exactly
      when there are no such three rows. */
  lemma SelfLinkExactly(w: World, db: Db, l: Link, f: Filter)
    requires SelfOnly(w.schema, l) && l.table in db && Known(w.schema, db)
    requires FetchesOnly(w) && FetchesAll(w)
    requires Intact(db, Links(w.schema), {}) && DistinctIds(db[l.table]) && Deleted(w, db, l.table, f).ok
    ensures Intact(Deleted(w, db, l.table, f).db, Links(w.schema), {}) <==> !Loses(db[l.table], l, f, w.now)
  {
    hide EachColumn, Cleared, Compare, Selects, Loses, DistinctIds, Intact, EnforcedColumns, Clear;
    var t, rows := l.table, db[l.table];
    var gone := w.fetch(t, rows, f);
    Actions.FetchedAmong(w, rows, t, f);
    ClearedAgain(rows, l, gone, Select(rows, f), w.now);
    NoneCleared(rows, l, w.now);
    ColumnsClear(w, db, l, rows, [], gone, EnforcedColumns(w.schema, t));
    IdIsEnforced(w.schema, t);
    var left := Left(rows, l, f, w.now);
    var after := Deleted(w, db, t, f).db;
    assert after[t] == left;
    if Loses(rows, l, f, w.now) {
      LosingDangles(w, db, after, l, f);
    } else {
      KeepingStays(w, db, after, l, f);
    }
  }

  lemma NoneCleared(rows: seq<Row>, l: Link, now: int)
    ensures Cleared(rows, l, [], now) == rows
  {
  }

  /** The rows after clearing, by the rows they were. */
  lemma InCleared(rows: seq<Row>, l: Link, gone: seq<Row>, now: int, x: Row)
    ensures x in Cleared(rows, l, gone, now) <==>
      exists r :: r in rows && x == if RefersToOne(r, l, gone) then Clear(r, l, now) else r
  {
    hide RefersToOne, Clear;
    var out := Cleared(rows, l, gone, now);
    if x in out {
      var i :| 0 <= i < |out| && out[i] == x;
      assert rows[i] in rows;
    }
    if r :| r in rows && x == if RefersToOne(r, l, gone) then Clear(r, l, now) else r {
      var i :| 0 <= i < |rows| && rows[i] == r;
      assert out[i] == x;
    }
  }

  lemma ClearIs(x: Row, l: Link, now: int)
    requires l.col !in PSEUDO
    ensures Clear(x, l, now).id == x.id && Get(Clear(x, l, now), l.col) == Null
  {
  }

  /** What is left of the table. */
  function Left(rows: seq<Row>, l: Link, f: Filter, now: int): seq<Row> {
    Reject(Cleared(rows, l, Select(rows, f), now), f)
  }

  lemma ChildStays(rows: seq<Row>, l: Link, f: Filter, now: int, r: Row, g: Row)
    requires DistinctIds(rows) && r in rows && g in rows && !Selects(f, r) && !Selects(f, g)
    requires Eq(Get(g, l.col), Int(r.id))
    ensures g in Left(rows, l, f, now)
  {
    hide Cleared, Compare, Selects, Clear, Get, DistinctIds;
    var gone := Select(rows, f);
    if RefersToOne(g, l, gone) {
      var a :| a in gone && Eq(Get(g, l.col), Int(a.id));
      SameId(rows, Get(g, l.col), a, r);
    }
    InCleared(rows, l, gone, now, g);
  }

  lemma ParentGoes(rows: seq<Row>, l: Link, f: Filter, now: int, q: Row, r: Row, v: Value)
    requires DistinctIds(rows) && q in rows && r in rows && Selects(f, q) && Eq(Get(r, l.col), Int(q.id))
    requires Selects(f, Clear(r, l, now)) && Eq(v, Int(r.id)) && l.col !in PSEUDO
    ensures forall p :: p in Left(rows, l, f, now) ==> !Eq(Int(p.id), v)
  {
    hide Cleared, Compare, Selects, Clear, Get, DistinctIds;
    var gone := Select(rows, f);
    assert q in gone && RefersToOne(r, l, gone);
    forall p | p in Left(rows, l, f, now)
      ensures !Eq(Int(p.id), v)
    {
      InCleared(rows, l, gone, now, p);
      var s :| s in rows && p == if RefersToOne(s, l, gone) then Clear(s, l, now) else s;
      ClearIs(s, l, now);
      if Eq(Int(s.id), v) {
        EqSymmetric(Int(s.id), v);
        SameId(rows, v, s, r);
      }
    }
  }

  lemma LosingDangles(w: World, db: Db, after: Db, l: Link, f: Filter)
    requires SelfOnly(w.schema, l) && l.table in db && l.table in after && DistinctIds(db[l.table])
    requires after[l.table] == Left(db[l.table], l, f, w.now) && Loses(db[l.table], l, f, w.now)
    ensures !Intact(after, Links(w.schema), {})
  {
    hide Left, Compare, Selects, Clear, DistinctIds;
    var rows, now := db[l.table], w.now;
    var q, r, g :| q in rows && r in rows && g in rows && Selects(f, q) && Eq(Get(r, l.col), Int(q.id))
      && !Selects(f, r) && Selects(f, Clear(r, l, now)) && !Selects(f, g) && Eq(Get(g, l.col), Int(r.id));
    ChildStays(rows, l, f, now, r, g);
    ParentGoes(rows, l, f, now, q, r, Get(g, l.col));
    EqNull(Int(r.id));
    DanglingChild(after, Links(w.schema), l, g);
  }

  lemma DanglingChild(db: Db, links: seq<Link>, l: Link, g: Row)
    requires links == [l] && l.table == l.refTable && l.refCol == "id" && l.table in db && g in db[l.table]
    requires !Get(g, l.col).Null? && forall p :: p in db[l.table] ==> !Eq(Int(p.id), Get(g, l.col))
    ensures !Intact(db, links, {})
  {
    hide Compare;
    assert links[0] == l && g in Rows(db, l.table);
    assert !HasParent(db, l, Get(g, l.col)) && !Supported(db, {}, l, Get(g, l.col));
  }

  lemma SameId(rows: seq<Row>, v: Value, a: Row, r: Row)
    requires DistinctIds(rows) && a in rows && r in rows && Eq(v, Int(a.id)) && Eq(v, Int(r.id))
    ensures a == r
  {
    hide Compare;
    EqSymmetric(v, Int(a.id));
    EqTransitive(Int(a.id), v, Int(r.id));
  }

  lemma KeepingStays(w: World, db: Db, after: Db, l: Link, f: Filter)
    requires SelfOnly(w.schema, l) && l.table in db && l.table in after
    requires Intact(db, Links(w.schema), {})
    requires after[l.table] == Left(db[l.table], l, f, w.now) && !Loses(db[l.table], l, f, w.now)
    ensures Intact(after, Links(w.schema), {})
  {
    hide Left, Compare, Selects, Clear, Loses, Get;
    assert Links(w.schema)[0] == l;
    forall m, x | m in Links(w.schema) && x in Rows(after, m.table)
      ensures Supported(after, {}, m, Get(x, m.col))
    {
      assert m == l && x in Left(db[l.table], l, f, w.now);
      StaysSupported(db, l, f, w.now, x);
      if !Get(x, l.col).Null? {
        var p :| p in Left(db[l.table], l, f, w.now) && Eq(Int(p.id), Get(x, l.col));
        IdOf(p);
        assert p in Rows(after, l.table) && HasParent(after, l, Get(x, l.col));
      }
    }
  }

  lemma IdOf(p: Row)
    ensures Get(p, "id") == Int(p.id)
  {
  }

  lemma StaysSupported(db: Db, l: Link, f: Filter, now: int, x: Row)
    requires l.table == l.refTable && l.refCol == "id" && l.col !in PSEUDO && l.table in db
    requires Intact(db, [l], {}) && !Loses(db[l.table], l, f, now) && x in Left(db[l.table], l, f, now)
    ensures Get(x, l.col).Null? || exists p :: p in Left(db[l.table], l, f, now) && Eq(Int(p.id), Get(x, l.col))
  {
    hide Cleared, Compare, Selects, Clear, Loses, Get;
    var rows := db[l.table];
    var gone := Select(rows, f);
    InCleared(rows, l, gone, now, x);
    var g :| g in rows && x == if RefersToOne(g, l, gone) then Clear(g, l, now) else g;
    ClearIs(g, l, now);
    if !RefersToOne(g, l, gone) && !Get(g, l.col).Null? {
      assert [l][0] == l && g in Rows(db, l.table) && Supported(db, {}, l, Get(g, l.col));
      var r :| r in Rows(db, l.table) && Eq(Get(r, "id"), Get(g, l.col));
      IdOf(r);
      EqSymmetric(Int(r.id), Get(g, l.col));
      ParentSurvives(rows, l, f, now, r, g);
      var p := if RefersToOne(r, l, gone) then Clear(r, l, now) else r;
      InCleared(rows, l, gone, now, p);
      ClearIs(r, l, now);
      assert p in Left(rows, l, f, now);
    }
  }

  lemma ParentSurvives(rows: seq<Row>, l: Link, f: Filter, now: int, r: Row, g: Row)
    requires r in rows && g in rows && Eq(Get(g, l.col), Int(r.id)) && !Loses(rows, l, f, now)
    requires !RefersToOne(g, l, Select(rows, f)) && !Selects(f, g)
    ensures !Selects(f, if RefersToOne(r, l, Select(rows, f)) then Clear(r, l, now) else r)
  {
    hide Compare, Selects, Clear, Get;
    var gone := Select(rows, f);
    assert Selects(f, r) ==> r in gone;
    if !Selects(f, r) && RefersToOne(r, l, gone) {
      var q :| q in gone && Eq(Get(r, l.col), Int(q.id));
    }
  }
}
