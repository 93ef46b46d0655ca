/** Foreign keys (src/kumdb.c; ISO/IEC 9075-2:2003 section 11.8). */
module ForeignKeys {
  import opened Values

  /** Single-column keys over a fixed schema. `Intact` is referential integrity; while an ON UPDATE
    CASCADE is under way it is relative to the values the parent rows have been promised.
   */

  const MAX_FK_REFERENCERS: nat := 32
  const FK_MAX_CASCADE_DEPTH: nat := 8

  type Table = string
  type Column = string

  // ---------------------------------------------------------------- rows and queries

  datatype Row = Row(id: int, createdAt: int, updatedAt: int, fields: map<Column, Value>)

  type Db = map<Table, seq<Row>>

  const PSEUDO: seq<Column> := ["id", "created_at", "updated_at"]

  /** A column's value: the three pseudo-columns come first; a missing field reads as NULL. */
  function Get(r: Row, c: Column): Value {
    if c == "id" then Int(r.id)
    else if c == "created_at" then Int(r.createdAt)
    else if c == "updated_at" then Int(r.updatedAt)
    else if c in r.fields then r.fields[c] else Null
  }

  function Rows(db: Db, t: Table): seq<Row> {
    if t in db then db[t] else []
  }

  datatype Filter = Where(p: Row -> bool) | ColumnIs(col: Column, v: Value)

  predicate Selects(f: Filter, r: Row) {
    match f
    case Where(p) => p(r)
    case ColumnIs(col, v) => Eq(Get(r, col), v)
  }

  function Select(rows: seq<Row>, f: Filter): (out: seq<Row>)
    ensures forall r :: r in out <==> r in rows && Selects(f, r)
  {
    if rows == [] then []
    else (if Selects(f, rows[0]) then [rows[0]] else []) + Select(rows[1..], f)
  }

  /** The rows a DELETE keeps. */
  function Reject(rows: seq<Row>, f: Filter): (out: seq<Row>)
    ensures forall r :: r in out <==> r in rows && !Selects(f, r)
  {
    if rows == [] then []
    else (if Selects(f, rows[0]) then [] else [rows[0]]) + Reject(rows[1..], f)
  }

  type Patch = map<Column, Value>

  function PatchRow(r: Row, patch: Patch, now: int): Row {
    r.(updatedAt := now, fields := r.fields + patch)
  }

  /** The rows after an UPDATE. */
  function Patched(rows: seq<Row>, f: Filter, patch: Patch, now: int): (out: seq<Row>)
    ensures |out| == |rows|
  {
    seq(|rows|, i requires 0 <= i < |rows| => if Selects(f, rows[i]) then PatchRow(rows[i], patch, now) else rows[i])
  }

  // ---------------------------------------------------------------- schema

  datatype Action = Restrict | Cascade | SetNull

  datatype Fk = Fk(refTable: Table, refCol: Column, onDelete: Action, onUpdate: Action)

  datatype ColumnDef = ColumnDef(name: Column, fk: Option<Fk>, default: Option<Value>)

  datatype TableDef = TableDef(name: Table, columns: seq<ColumnDef>)

  type Schema = seq<TableDef>

  /** One foreign key: `table.col` references `refTable.refCol`. */
  datatype Link = Link(table: Table, col: Column, refTable: Table, refCol: Column, onDelete: Action, onUpdate: Action)

  function ColumnLinks(t: Table, columns: seq<ColumnDef>): seq<Link> {
    if columns == [] then []
    else
      (match columns[0].fk
       case None => []
       case Some(fk) => [Link(t, columns[0].name, fk.refTable, fk.refCol, fk.onDelete, fk.onUpdate)])
      + ColumnLinks(t, columns[1..])
  }

  function Links(schema: Schema): seq<Link> {
    if schema == [] then [] else ColumnLinks(schema[0].name, schema[0].columns) + Links(schema[1..])
  }

  /** The foreign key on a column, if it has one. */
  function FkOf(links: seq<Link>, t: Table, c: Column): (o: Option<Link>)
    ensures o.Some? ==> o.value in links && o.value.table == t && o.value.col == c
    ensures o.None? ==> forall l :: l in links ==> !(l.table == t && l.col == c)
  {
    if links == [] then None
    else if links[0].table == t && links[0].col == c then Some(links[0])
    else FkOf(links[1..], t, c)
  }

  function Referencers(links: seq<Link>, t: Table, c: Column): seq<Link> {
    if links == [] then []
    else (if links[0].refTable == t && links[0].refCol == c then [links[0]] else []) + Referencers(links[1..], t, c)
  }

  lemma {:induction false} ReferencersMatch(links: seq<Link>, t: Table, c: Column)
    ensures forall l :: l in Referencers(links, t, c) <==> l in links && l.refTable == t && l.refCol == c
  {
    if links != [] {
      ReferencersMatch(links[1..], t, c);
    }
  }

  lemma {:induction false} ReferencersAppend(a: seq<Link>, b: seq<Link>, t: Table, c: Column)
    ensures Referencers(a + b, t, c) == Referencers(a, t, c) + Referencers(b, t, c)
  {
    if a == [] {
      assert a + b == b;
    } else {
      assert (a + b)[1..] == a[1..] + b;
      ReferencersAppend(a[1..], b, t, c);
    }
  }

  /** How the referencers among a table's columns begin. */
  lemma FirstColumn(name: Table, columns: seq<ColumnDef>, t: Table, c: Column)
    requires columns != []
    ensures var later := Referencers(ColumnLinks(name, columns[1..]), t, c);
      Referencers(ColumnLinks(name, columns), t, c) ==
      match columns[0].fk
      case None => later
      case Some(fk) =>
        if fk.refTable == t && fk.refCol == c
        then [Link(name, columns[0].name, fk.refTable, fk.refCol, fk.onDelete, fk.onUpdate)] + later else later
  {
    var rest := ColumnLinks(name, columns[1..]);
    if columns[0].fk.Some? {
      var fk := columns[0].fk.value;
      var l := Link(name, columns[0].name, fk.refTable, fk.refCol, fk.onDelete, fk.onUpdate);
      ReferencersAppend([l], rest, t, c);
      assert Referencers([l], t, c) == if fk.refTable == t && fk.refCol == c then [l] else [];
    } else {
      assert ColumnLinks(name, columns) == rest;
    }
  }

  lemma NoColumnsNoLinks(name: Table, t: Table, c: Column)
    ensures Referencers(ColumnLinks(name, []), t, c) == []
  {
  }

  function ColumnNames(columns: seq<ColumnDef>): seq<Column> {
    seq(|columns|, i requires 0 <= i < |columns| => columns[i].name)
  }

  /** The columns referential actions look at: the table's own, then the pseudo-columns. */
  function EnforcedColumns(schema: Schema, t: Table): seq<Column> {
    if schema == [] then PSEUDO
    else if schema[0].name == t then ColumnNames(schema[0].columns) + PSEUDO
    else EnforcedColumns(schema[1..], t)
  }

  /** The referencers the lookup returns: the first ones, up to its cap. */
  function Found(links: seq<Link>, t: Table, c: Column): (out: seq<Link>)
    ensures |out| <= MAX_FK_REFERENCERS && out <= Referencers(links, t, c)
    ensures forall l :: l in out ==> l in links && l.refTable == t && l.refCol == c
  {
    var all := Referencers(links, t, c);
    ReferencersMatch(links, t, c);
    if |all| <= MAX_FK_REFERENCERS then all else all[..MAX_FK_REFERENCERS]
  }

  function ColumnsOf(schema: Schema, t: Table): seq<ColumnDef> {
    if schema == [] then [] else if schema[0].name == t then schema[0].columns else ColumnsOf(schema[1..], t)
  }

  function DefaultIn(columns: seq<ColumnDef>, c: Column): Option<Value> {
    if columns == [] then None
    else if columns[0].name == c && columns[0].default.Some? then columns[0].default
    else DefaultIn(columns[1..], c)
  }

  /** The DEFAULT of a column, if it has one. */
  function DefaultOf(schema: Schema, t: Table, c: Column): Option<Value> {
    DefaultIn(ColumnsOf(schema, t), c)
  }

  /** The fields of a new row: a column that is omitted outright gets its DEFAULT, one that is NULL does not. */
  function Completed(columns: seq<ColumnDef>, fields: map<Column, Value>): map<Column, Value> {
    if columns == [] then fields else Completed(columns[1..], Filled(columns[0], fields))
  }

  function Filled(c: ColumnDef, fields: map<Column, Value>): map<Column, Value> {
    if c.default.Some? && c.name !in fields then fields[c.name := c.default.value] else fields
  }

  lemma {:induction false} CompletedIs(columns: seq<ColumnDef>, fields: map<Column, Value>, c: Column)
    ensures c in Completed(columns, fields) <==> c in fields || DefaultIn(columns, c).Some?
    ensures c in fields ==> Completed(columns, fields)[c] == fields[c]
    ensures c !in fields && DefaultIn(columns, c).Some? ==> Completed(columns, fields)[c] == DefaultIn(columns, c).value
  {
    if columns != [] {
      CompletedIs(columns[1..], Filled(columns[0], fields), c);
    }
  }

  /** The row that is stored for `r`. */
  function Stored(schema: Schema, t: Table, r: Row): Row {
    r.(fields := Completed(ColumnsOf(schema, t), r.fields))
  }

  /** One foreign key a column, on a stored column; the referenced column exists and is not the
      timestamp every update moves; no column has more referencers than the lookup returns. */
  ghost predicate WellFormed(schema: Schema) {
    var links := Links(schema);
    && (forall l, m :: l in links && m in links && l.table == m.table && l.col == m.col ==> l == m)
    && (forall l :: l in links ==>
          l.col !in PSEUDO && l.refCol != "updated_at" && l.refCol in EnforcedColumns(schema, l.refTable))
    && (forall t, c :: |Referencers(links, t, c)| <= MAX_FK_REFERENCERS)
  }

  /** No cycle: every foreign key points to a table of higher rank. */
  ghost predicate Ranked(schema: Schema, rank: Table -> nat) {
    forall l :: l in Links(schema) ==> rank(l.table) < rank(l.refTable)
  }

  ghost predicate Acyclic(schema: Schema) {
    exists rank: Table -> nat :: Ranked(schema, rank)
  }

  /** The tables with foreign keys exist. */
  predicate Known(schema: Schema, db: Db) {
    forall l :: l in Links(schema) ==> l.table in db
  }

  // ---------------------------------------------------------------- integrity

  ghost predicate HasParent(db: Db, l: Link, v: Value) {
    exists p :: p in Rows(db, l.refTable) && Eq(Get(p, l.refCol), v)
  }

  lemma EqNull(v: Value)
    ensures Eq(Null, v) <==> v.Null?
    ensures Eq(v, Null) <==> v.Null?
  {
  }

  /** A value a column of some parent row will have once the update under way reaches it. */
  datatype Promise = Promise(table: Table, col: Column, value: Value)

  ghost predicate Promised(promises: set<Promise>, l: Link, v: Value) {
    exists x :: x in promises && x.table == l.refTable && x.col == l.refCol && Eq(x.value, v)
  }

  ghost predicate Supported(db: Db, promises: set<Promise>, l: Link, v: Value) {
    v.Null? || HasParent(db, l, v) || Promised(promises, l, v)
  }

  ghost predicate Intact(db: Db, links: seq<Link>, promises: set<Promise>) {
    forall l, r :: l in links && r in Rows(db, l.table) ==> Supported(db, promises, l, Get(r, l.col))
  }

  lemma IntactMonotone(db: Db, links: seq<Link>, p: set<Promise>, q: set<Promise>)
    requires Intact(db, links, p) && p <= q
    ensures Intact(db, links, q)
  {
    forall l, r | l in links && r in Rows(db, l.table)
      ensures Supported(db, q, l, Get(r, l.col))
    {
      assert Supported(db, p, l, Get(r, l.col));
    }
  }

  function ColValues(db: Db, l: Link): set<Value> {
    set r | r in Rows(db, l.table) :: Get(r, l.col)
  }

  predicate NoneHas(db: Db, l: Link, v: Value) {
    forall r :: r in Rows(db, l.table) ==> !Eq(Get(r, l.col), v)
  }

  /** No child value depends on parent value `v` any more, unless the parent's new value supports it too. */
  ghost predicate Released(db: Db, l: Link, v: Value, newV: Value) {
    forall w :: w in ColValues(db, l) && Eq(w, v) ==> Eq(w, newV)
  }

  /** What a patch makes of a referenced column; a DELETE leaves nothing. */
  function NewOf(patch: Option<Patch>, c: Column): Value {
    if patch.Some? && c in patch.value then patch.value[c] else Null
  }

  /** While rows are deleted, references are only ever cleared. */
  predicate Clears(patch: Option<Patch>) {
    patch.Some? ==> forall c :: c in patch.value ==> patch.value[c].Null?
  }

  predicate Touches(patch: Option<Patch>, c: Column) {
    patch.None? || c in patch.value
  }

  /** What every step of enforcing table `t`'s references leaves alone: tables of rank `b` or more keep
      their rows, and columns referencing a table of higher rank get no new values. */
  ghost predicate Descends(db0: Db, db1: Db, links: seq<Link>, rank: Table -> nat, b: nat) {
    && db0.Keys == db1.Keys
    && (forall t :: rank(t) >= b ==> Rows(db1, t) == Rows(db0, t))
    && (forall l :: l in links && rank(l.refTable) > b ==> ColValues(db1, l) <= ColValues(db0, l))
  }

  /** A column referencing `t` gets no value but NULL and the patch's. */
  ghost predicate OnlyPatched(db0: Db, db1: Db, links: seq<Link>, t: Table, patch: Option<Patch>) {
    forall l :: l in links && l.refTable == t ==>
      ColValues(db1, l) <= ColValues(db0, l) + {NewOf(patch, l.refCol), Null}
  }

  lemma ReleasedStays(db0: Db, db1: Db, l: Link, v: Value, newV: Value)
    requires Released(db0, l, v, newV) && !v.Null?
    requires ColValues(db1, l) <= ColValues(db0, l) + {newV, Null}
    ensures Released(db1, l, v, newV)
  {
    forall w | w in ColValues(db1, l) && Eq(w, v)
      ensures Eq(w, newV)
    {
      if w == newV {
        EqSymmetric(newV, v);
        EqTransitive(newV, v, newV);
      }
    }
  }

  // ---------------------------------------------------------------- the two table operations

  ghost predicate AllReleased(db: Db, links: seq<Link>, t: Table, affected: seq<Row>, patch: Option<Patch>) {
    forall l, r :: l in links && l.refTable == t && Touches(patch, l.refCol) && r in affected ==>
      Get(r, l.refCol).Null? || Released(db, l, Get(r, l.refCol), NewOf(patch, l.refCol))
  }

  /** What an UPDATE of `affected` promises to the rows that reference them. */
  ghost function Promises(t: Table, affected: seq<Row>, patch: Patch): set<Promise> {
    if affected == [] then {} else set c | c in patch && !patch[c].Null? && c !in PSEUDO :: Promise(t, c, patch[c])
  }

  lemma {:induction false} AfterDelete(db: Db, links: seq<Link>, t: Table, f: Filter, promises: set<Promise>)
    requires t in db && Intact(db, links, promises)
    requires forall l :: l in links ==> l.table != l.refTable
    requires AllReleased(db, links, t, Select(db[t], f), None)
    ensures Intact(db[t := Reject(db[t], f)], links, promises)
    ensures forall l :: l in links ==> ColValues(db[t := Reject(db[t], f)], l) <= ColValues(db, l)
  {
    var db' := db[t := Reject(db[t], f)];
    forall l, r | l in links && r in Rows(db', l.table)
      ensures Supported(db', promises, l, Get(r, l.col))
    {
      var w := Get(r, l.col);
      assert r in Rows(db, l.table) && Supported(db, promises, l, w);
      if !w.Null? && !Promised(promises, l, w) && l.refTable == t {
        var p :| p in Rows(db, t) && Eq(Get(p, l.refCol), w);
        EqSymmetric(Get(p, l.refCol), w);
        assert w in ColValues(db, l);
        assert Selects(f, p) ==> !Released(db, l, Get(p, l.refCol), Null);
        assert p in Rows(db', t);
      } else if !w.Null? && !Promised(promises, l, w) {
        assert HasParent(db', l, w);
      }
    }
  }

  lemma AfterPatch(db: Db, links: seq<Link>, t: Table, f: Filter, patch: Patch, now: int, promises: set<Promise>)
    requires t in db
    requires forall l :: l in links ==> l.table != l.refTable && l.col !in PSEUDO && l.refCol != "updated_at"
    requires Intact(db, links, promises + Promises(t, Select(db[t], f), patch))
    requires AllReleased(db, links, t, Select(db[t], f), Some(patch))
    requires forall l :: l in links && l.table == t && l.col in patch && Select(db[t], f) != [] ==>
      Supported(db, promises, l, patch[l.col])
    ensures Intact(db[t := Patched(db[t], f, patch, now)], links, promises)
  {
    hide Compare, Select, Selects;
    var db' := db[t := Patched(db[t], f, patch, now)];
    var affected := Select(db[t], f);
    forall l, r' | l in links && r' in Rows(db', l.table)
      ensures Supported(db', promises, l, Get(r', l.col))
    {
      var w := Get(r', l.col);
      if l.table == t {
        assert Rows(db', l.refTable) == Rows(db, l.refTable);
        var i :| 0 <= i < |db'[t]| && db'[t][i] == r';
        var r := db[t][i];
        assert r in Rows(db, t) && Supported(db, promises + Promises(t, affected, patch), l, Get(r, l.col));
        assert !Promised(Promises(t, affected, patch), l, w);
        if Selects(f, r) {
          assert r in affected;
        }
        SupportedWithout(db, promises, Promises(t, affected, patch), l, w);
      } else if l.refTable == t {
        assert Supported(db, promises + Promises(t, affected, patch), l, w);
        ParentPatched(db, t, f, patch, now, promises, l, w);
      } else {
        assert Supported(db, promises + Promises(t, affected, patch), l, w);
        assert !Promised(Promises(t, affected, patch), l, w);
        SupportedWithout(db, promises, Promises(t, affected, patch), l, w);
      }
    }
  }

  lemma SupportedWithout(db: Db, p: set<Promise>, q: set<Promise>, l: Link, w: Value)
    ensures Supported(db, p + q, l, w) && !Promised(q, l, w) ==> Supported(db, p, l, w)
  {
  }

  /** A child value that was supported stays so when the parent table's rows get their new values. */
  lemma ParentPatched(db: Db, t: Table, f: Filter, patch: Patch, now: int, promises: set<Promise>, l: Link, w: Value)
    requires t in db && l.refTable == t && l.refCol != "updated_at"
    requires w in ColValues(db, l)
    requires Supported(db, promises + Promises(t, Select(db[t], f), patch), l, w)
    requires forall r :: r in Select(db[t], f) && l.refCol in patch && !Get(r, l.refCol).Null? ==>
      Released(db, l, Get(r, l.refCol), patch[l.refCol])
    ensures Supported(db[t := Patched(db[t], f, patch, now)], promises, l, w)
  {
    var db' := db[t := Patched(db[t], f, patch, now)];
    var affected := Select(db[t], f);
    if w.Null? || Promised(promises, l, w) {
      return;
    }
    if HasParent(db, l, w) {
      var p :| p in db[t] && Eq(Get(p, l.refCol), w);
      var i :| 0 <= i < |db[t]| && db[t][i] == p;
      var p' := db'[t][i];
      assert p' in Rows(db', t);
      if Selects(f, p) {
        if l.refCol in patch && l.refCol !in PSEUDO {
          assert p in affected && Released(db, l, Get(p, l.refCol), patch[l.refCol]);
          EqSymmetric(Get(p, l.refCol), w);
          EqSymmetric(w, patch[l.refCol]);
        }
      }
      assert Eq(Get(p', l.refCol), w);
    } else {
      var x :| x in Promises(t, affected, patch) && x.col == l.refCol && Eq(x.value, w);
      var p := affected[0];
      assert p in affected && p in db[t];
      var i :| 0 <= i < |db[t]| && db[t][i] == p;
      assert db'[t][i] in Rows(db', t) && Eq(Get(db'[t][i], l.refCol), w);
    }
  }

  // ---------------------------------------------------------------- composing steps

  /** A step taken while table `t`'s references are being enforced. */
  ghost predicate Step(db0: Db, db1: Db, links: seq<Link>, rank: Table -> nat, t: Table, patch: Option<Patch>) {
    Descends(db0, db1, links, rank, rank(t)) && OnlyPatched(db0, db1, links, t, patch)
  }

  lemma StepThenStep(db0: Db, db1: Db, db2: Db, links: seq<Link>, rank: Table -> nat, t: Table, patch: Option<Patch>)
    requires Step(db0, db1, links, rank, t, patch) && Step(db1, db2, links, rank, t, patch)
    ensures Step(db0, db2, links, rank, t, patch)
  {
    forall l | l in links && l.refTable == t
      ensures ColValues(db2, l) <= ColValues(db0, l) + {NewOf(patch, l.refCol), Null}
    {
      assert ColValues(db1, l) <= ColValues(db0, l) + {NewOf(patch, l.refCol), Null};
    }
  }

  /** Work below a referencing table is a step of the table it references. */
  lemma DeeperStep(db0: Db, db1: Db, links: seq<Link>, rank: Table -> nat, l: Link, patch: Option<Patch>)
    requires l in links && rank(l.table) < rank(l.refTable)
    requires Descends(db0, db1, links, rank, rank(l.table))
    ensures Step(db0, db1, links, rank, l.refTable, patch)
  {
  }

  lemma ReleasedAfterStep(db0: Db, db1: Db, links: seq<Link>, rank: Table -> nat, l: Link, v: Value,
                          patch: Option<Patch>)
    requires l in links && !v.Null? && Released(db0, l, v, NewOf(patch, l.refCol))
    requires Step(db0, db1, links, rank, l.refTable, patch)
    ensures Released(db1, l, v, NewOf(patch, l.refCol))
  {
    ReleasedStays(db0, db1, l, v, NewOf(patch, l.refCol));
  }

  /** Writing one referencing column is a step of the referenced table. */
  lemma SetStep(db: Db, links: seq<Link>, rank: Table -> nat, l: Link, f: Filter, newV: Value, now: int,
                patch: Option<Patch>)
    requires l in links && l.table in db && rank(l.table) < rank(l.refTable) && l.col !in PSEUDO
    requires forall m :: m in links && m.table == l.table && m.col == l.col ==> m == l
    requires forall m :: m in links ==> m.col !in PSEUDO
    requires newV.Null? || newV == NewOf(patch, l.refCol)
    ensures Step(db, db[l.table := Patched(db[l.table], f, map[l.col := newV], now)], links, rank, l.refTable, patch)
  {
    var db' := db[l.table := Patched(db[l.table], f, map[l.col := newV], now)];
    forall m | m in links && rank(m.refTable) >= rank(l.refTable)
      ensures ColValues(db', m) <= ColValues(db, m) + if m == l then {newV} else {}
    {
      forall w | w in ColValues(db', m)
        ensures w in ColValues(db, m) + if m == l then {newV} else {}
      {
        var r' :| r' in Rows(db', m.table) && Get(r', m.col) == w;
        if m.table == l.table {
          var i :| 0 <= i < |db'[l.table]| && db'[l.table][i] == r';
          assert db[l.table][i] in Rows(db, m.table);
        }
      }
    }
  }

  /** Once every row whose value equals `v` carries the new one, `v` is released. */
  lemma SetReleases(db: Db, l: Link, v: Value, newV: Value, now: int)
    requires l.table in db && l.col !in PSEUDO && !v.Null?
    ensures Released(db[l.table := Patched(db[l.table], ColumnIs(l.col, v), map[l.col := newV], now)], l, v, newV)
  {
    var db' := db[l.table := Patched(db[l.table], ColumnIs(l.col, v), map[l.col := newV], now)];
    forall w | w in ColValues(db', l) && Eq(w, v)
      ensures Eq(w, newV)
    {
      var r' :| r' in Rows(db', l.table) && Get(r', l.col) == w;
      var i :| 0 <= i < |db'[l.table]| && db'[l.table][i] == r';
      EqSymmetric(newV, v);
      if Eq(newV, v) {
        EqTransitive(newV, v, newV);
      }
    }
  }

  // ---------------------------------------------------------------- the enforcement

  type Constraints = (Table, seq<Row>, seq<Row>) -> bool

  type Fetching = (Table, seq<Row>, Filter) -> seq<Row>

  /** The schema, what the tables' own constraints say to new rows, what executing a query on a table fetches
      (through an index, perhaps), and the time. */
  datatype World = World(schema: Schema, accepts: Constraints, fetch: Fetching, now: int)

  /** A fetched row is one the filter selects: the index path tests each again. */
  ghost predicate FetchesOnly(w: World) {
    forall t, rows, f, r :: r in w.fetch(t, rows, f) ==> r in rows && Selects(f, r)
  }

  /** And every such row is fetched, in whatever order. */
  ghost predicate FetchesAll(w: World) {
    forall t, rows, f, r :: r in rows && Selects(f, r) ==> r in w.fetch(t, rows, f)
  }

  /** A query execution that is a scan. */
  function ScanFetch(): Fetching {
    (t: Table, rows: seq<Row>, f: Filter) => Select(rows, f)
  }

  /** What has been enforced for the rows fetched has been enforced for the rows selected. */
  lemma FetchedIsSelected(w: World, db: Db, db': Db, links: seq<Link>, t: Table, f: Filter, patch: Option<Patch>)
    requires t in db && FetchesOnly(w) && FetchesAll(w)
    ensures AllReleased(db', links, t, w.fetch(t, db[t], f), patch) <==>
      AllReleased(db', links, t, Select(db[t], f), patch)
    ensures forall one :: Promises(t, w.fetch(t, db[t], f), one) == Promises(t, Select(db[t], f), one)
    ensures w.fetch(t, db[t], f) == [] <==> Select(db[t], f) == []
  {
    hide Released, Get;
    var fetched, selected := w.fetch(t, db[t], f), Select(db[t], f);
    assert forall r :: r in fetched <==> r in selected;
    assert fetched != [] ==> fetched[0] in selected;
    assert selected != [] ==> selected[0] in fetched;
  }

  datatype Result = Result(ok: bool, db: Db)

  function ActionOf(l: Link, patch: Option<Patch>): Action {
    if patch.Some? then l.onUpdate else l.onDelete
  }

  /** A table operation: the table's own constraints may refuse the new rows, and then nothing changes. */
  function Written(w: World, db: Db, t: Table, rows: seq<Row>): Result
    requires t in db
  {
    if w.accepts(t, db[t], rows) then Result(true, db[t := rows]) else Result(false, db)
  }

  // What enforcement does, in the order of the source: columns, affected rows, referencers. It stops at the
  // first failure and keeps what it has done by then. The depth cap ends it on any schema.

  /** Sets one referencing column where it equals `v`. Rows that reference that column are dealt with first. */
  function SetOne(w: World, db: Db, l: Link, v: Value, newV: Value, depth: nat): (out: Result)
    requires Known(w.schema, db) && l in Links(w.schema) && depth <= FK_MAX_CASCADE_DEPTH + 1
    ensures out.db.Keys == db.Keys
    decreases FK_MAX_CASCADE_DEPTH + 1 - depth, 5, 0
  {
    if depth > FK_MAX_CASCADE_DEPTH then Result(false, db) else
    var f, one := ColumnIs(l.col, v), map[l.col := newV];
    var below := Enforced(w, db, l.table, w.fetch(l.table, db[l.table], f), Some(one), depth);
    if !below.ok then below else Written(w, below.db, l.table, Patched(below.db[l.table], f, one, w.now))
  }

  /** What one referencer does about parent value `v` going away or changing: RESTRICT demands that no row has
      it, SET NULL clears it, CASCADE deletes the rows or hands down the new value. */
  function One(w: World, db: Db, l: Link, v: Value, patch: Option<Patch>, depth: nat): (out: Result)
    requires Known(w.schema, db) && l in Links(w.schema) && depth <= FK_MAX_CASCADE_DEPTH
    ensures out.db.Keys == db.Keys
    decreases FK_MAX_CASCADE_DEPTH + 1 - depth, 0, 0
  {
    var f := ColumnIs(l.col, v);
    match ActionOf(l, patch)
    case Restrict => Result(Select(db[l.table], f) == [], db)
    case SetNull => SetOne(w, db, l, v, Null, depth + 1)
    case Cascade =>
      if patch.Some? then SetOne(w, db, l, v, NewOf(patch, l.refCol), depth + 1)
      else
        var below := Enforced(w, db, l.table, w.fetch(l.table, db[l.table], f), None, depth + 1);
        if !below.ok then below else Written(w, below.db, l.table, Reject(below.db[l.table], f))
  }

  function Each(w: World, db: Db, refs: seq<Link>, v: Value, patch: Option<Patch>, depth: nat): (out: Result)
    requires Known(w.schema, db) && (forall l :: l in refs ==> l in Links(w.schema)) && depth <= FK_MAX_CASCADE_DEPTH
    ensures out.db.Keys == db.Keys
    decreases FK_MAX_CASCADE_DEPTH + 1 - depth, 1, |refs|
  {
    if refs == [] then Result(true, db) else
    var first := One(w, db, refs[0], v, patch, depth);
    if !first.ok then first else Each(w, first.db, refs[1..], v, patch, depth)
  }

  function EachRow(w: World, db: Db, refs: seq<Link>, c: Column, affected: seq<Row>, patch: Option<Patch>, depth: nat):
    (out: Result)
    requires Known(w.schema, db) && (forall l :: l in refs ==> l in Links(w.schema)) && depth <= FK_MAX_CASCADE_DEPTH
    ensures out.db.Keys == db.Keys
    decreases FK_MAX_CASCADE_DEPTH + 1 - depth, 2, |affected|
  {
    if affected == [] then Result(true, db) else
    var v := Get(affected[0], c);
    var first := if v.Null? then Result(true, db) else Each(w, db, refs, v, patch, depth);
    if !first.ok then first else EachRow(w, first.db, refs, c, affected[1..], patch, depth)
  }

  function EachColumn(w: World, db: Db, t: Table, cols: seq<Column>, affected: seq<Row>, patch: Option<Patch>,
                      depth: nat): (out: Result)
    requires Known(w.schema, db) && depth <= FK_MAX_CASCADE_DEPTH
    ensures out.db.Keys == db.Keys
    decreases FK_MAX_CASCADE_DEPTH + 1 - depth, 3, |cols|
  {
    if cols == [] then Result(true, db) else
    var c := cols[0];
    var first := if Touches(patch, c) then EachRow(w, db, Found(Links(w.schema), t, c), c, affected, patch, depth)
                 else Result(true, db);
    if !first.ok then first else EachColumn(w, first.db, t, cols[1..], affected, patch, depth)
  }

  function Enforced(w: World, db: Db, t: Table, affected: seq<Row>, patch: Option<Patch>, depth: nat): (out: Result)
    requires Known(w.schema, db) && depth <= FK_MAX_CASCADE_DEPTH + 1
    ensures out.db.Keys == db.Keys
    decreases FK_MAX_CASCADE_DEPTH + 1 - depth, 4, 0
  {
    if depth > FK_MAX_CASCADE_DEPTH then Result(false, db)
    else EachColumn(w, db, t, EnforcedColumns(w.schema, t), affected, patch, depth)
  }

  /** `kdb_delete`. */
  function Deleted(w: World, db: Db, t: Table, f: Filter): (out: Result)
    requires Known(w.schema, db) && t in db
    ensures out.db.Keys == db.Keys
  {
    var below := Enforced(w, db, t, w.fetch(t, db[t], f), None, 0);
    if !below.ok then below else Written(w, below.db, t, Reject(below.db[t], f))
  }

  /** Every non-NULL foreign key value written to `t` has a parent row now. */
  ghost predicate ChildPasses(db: Db, links: seq<Link>, t: Table, values: map<Column, Value>) {
    forall c :: c in values && FkOf(links, t, c).Some? ==> ValueHasParent(db, FkOf(links, t, c).value, values[c])
  }

  ghost predicate ValueHasParent(db: Db, l: Link, v: Value) {
    v.Null? || HasParent(db, l, v)
  }

  /** `kdb_update`. */
  ghost function Updated(w: World, db: Db, t: Table, f: Filter, patch: Patch): (out: Result)
    requires Known(w.schema, db) && t in db
    ensures out.db.Keys == db.Keys
  {
    if !ChildPasses(db, Links(w.schema), t, patch) then Result(false, db) else
    var below := Enforced(w, db, t, w.fetch(t, db[t], f), Some(patch), 0);
    if !below.ok then below else Written(w, below.db, t, Patched(below.db[t], f, patch, w.now))
  }

  // ---------------------------------------------------------------- enforcement keeps integrity

  /** No ON UPDATE CASCADE would carry a non-NULL value of this patch to a referencing row. */
  ghost predicate NoCascade(links: seq<Link>, t: Table, patch: Option<Patch>) {
    forall l :: l in links && l.refTable == t && l.onUpdate == Cascade ==> NewOf(patch, l.refCol).Null?
  }

  /** A value an ON UPDATE CASCADE hands down is one the parent row will really have and that can be matched:
      not a pseudo-column's, which no patch changes, and not a blob. */
  ghost predicate Safe(links: seq<Link>, t: Table, patch: Option<Patch>) {
    forall l :: l in links && l.refTable == t && l.onUpdate == Cascade && !NewOf(patch, l.refCol).Null? ==>
      l.refCol !in PSEUDO && Eq(NewOf(patch, l.refCol), NewOf(patch, l.refCol))
  }

  /** Whatever an ON UPDATE CASCADE hands down can be matched and has been promised to the referencing rows. */
  ghost predicate CascadeCovered(refs: seq<Link>, patch: Option<Patch>, promises: set<Promise>) {
    forall l :: l in refs && l.onUpdate == Cascade && !NewOf(patch, l.refCol).Null? ==>
      && Eq(NewOf(patch, l.refCol), NewOf(patch, l.refCol))
      && Promise(l.refTable, l.refCol, NewOf(patch, l.refCol)) in promises
  }

  predicate NewValue(patch: Option<Patch>, v: Value) {
    patch.Some? && exists c :: c in patch.value && Eq(patch.value[c], v)
  }

  /** Nothing dangles but references to the patch's new values. */
  ghost predicate IntactBut(db: Db, links: seq<Link>, promises: set<Promise>, patch: Option<Patch>) {
    forall l, r :: l in links && r in Rows(db, l.table) ==>
      Supported(db, promises, l, Get(r, l.col)) || NewValue(patch, Get(r, l.col))
  }

  lemma WithoutPromises(db: Db, links: seq<Link>, promises: set<Promise>, t: Table, affected: seq<Row>, patch: Patch)
    requires IntactBut(db, links, promises + Promises(t, affected, patch), Some(patch))
    ensures IntactBut(db, links, promises, Some(patch))
  {
    forall l, r | l in links && r in Rows(db, l.table)
      ensures Supported(db, promises, l, Get(r, l.col)) || NewValue(Some(patch), Get(r, l.col))
    {
      assert Supported(db, promises + Promises(t, affected, patch), l, Get(r, l.col))
          || NewValue(Some(patch), Get(r, l.col));
      SupportedWithout(db, promises, Promises(t, affected, patch), l, Get(r, l.col));
    }
  }

  lemma SmallerPatch(db: Db, links: seq<Link>, promises: set<Promise>, one: Option<Patch>, patch: Option<Patch>)
    requires IntactBut(db, links, promises, one) && one.Some?
    requires forall c :: c in one.value ==> one.value[c].Null? || NewValue(patch, one.value[c])
    ensures IntactBut(db, links, promises, patch)
  {
    forall l, r | l in links && r in Rows(db, l.table)
      ensures Supported(db, promises, l, Get(r, l.col)) || NewValue(patch, Get(r, l.col))
    {
      var v := Get(r, l.col);
      if !Supported(db, promises, l, v) {
        var c :| c in one.value && Eq(one.value[c], v);
        if !one.value[c].Null? {
          var d :| d in patch.value && Eq(patch.value[d], one.value[c]);
          EqTransitive(patch.value[d], one.value[c], v);
        }
      }
    }
  }

  ghost predicate RefsReleased(db: Db, refs: seq<Link>, v: Value, patch: Option<Patch>) {
    forall l :: l in refs ==> Released(db, l, v, NewOf(patch, l.refCol))
  }

  ghost predicate ColumnReleased(db: Db, refs: seq<Link>, c: Column, affected: seq<Row>, patch: Option<Patch>) {
    forall r :: r in affected ==> Get(r, c).Null? || RefsReleased(db, refs, Get(r, c), patch)
  }

  ghost predicate ColumnsReleased(db: Db, links: seq<Link>, t: Table, cols: seq<Column>, affected: seq<Row>,
                                  patch: Option<Patch>)
  {
    forall c :: c in cols && Touches(patch, c) ==> ColumnReleased(db, Found(links, t, c), c, affected, patch)
  }

  lemma RefsReleasedAfterStep(db0: Db, db1: Db, links: seq<Link>, rank: Table -> nat, refs: seq<Link>,
                              t: Table, v: Value, patch: Option<Patch>)
    requires RefsReleased(db0, refs, v, patch) && !v.Null? && Step(db0, db1, links, rank, t, patch)
    requires forall l :: l in refs ==> l in links && l.refTable == t
    ensures RefsReleased(db1, refs, v, patch)
  {
    forall l | l in refs
      ensures Released(db1, l, v, NewOf(patch, l.refCol))
    {
      ReleasedAfterStep(db0, db1, links, rank, l, v, patch);
    }
  }

  lemma ColumnReleasedAfterStep(db0: Db, db1: Db, links: seq<Link>, rank: Table -> nat, refs: seq<Link>,
                                t: Table, c: Column, affected: seq<Row>, patch: Option<Patch>)
    requires ColumnReleased(db0, refs, c, affected, patch) && Step(db0, db1, links, rank, t, patch)
    requires forall l :: l in refs ==> l in links && l.refTable == t
    ensures ColumnReleased(db1, refs, c, affected, patch)
  {
    forall r | r in affected && !Get(r, c).Null?
      ensures RefsReleased(db1, refs, Get(r, c), patch)
    {
      RefsReleasedAfterStep(db0, db1, links, rank, refs, t, Get(r, c), patch);
    }
  }

  lemma EveryColumnReleased(db: Db, schema: Schema, t: Table, affected: seq<Row>, patch: Option<Patch>)
    requires WellFormed(schema)
    requires ColumnsReleased(db, Links(schema), t, EnforcedColumns(schema, t), affected, patch)
    ensures AllReleased(db, Links(schema), t, affected, patch)
  {
    forall l, r | l in Links(schema) && l.refTable == t && Touches(patch, l.refCol) && r in affected
      ensures Get(r, l.refCol).Null? || Released(db, l, Get(r, l.refCol), NewOf(patch, l.refCol))
    {
      assert l.refCol in EnforcedColumns(schema, t);
      assert ColumnReleased(db, Found(Links(schema), t, l.refCol), l.refCol, affected, patch);
      ReferencersMatch(Links(schema), t, l.refCol);
    }
  }

  ghost predicate Sound(w: World, rank: Table -> nat, db: Db) {
    WellFormed(w.schema) && Ranked(w.schema, rank) && Known(w.schema, db) && FetchesOnly(w) && FetchesAll(w)
  }

  /** What enforcing the references to `t` keeps, whatever its status. */
  ghost predicate Keeps(db: Db, out: Result, links: seq<Link>, rank: Table -> nat, t: Table, patch: Option<Patch>,
                        promises: set<Promise>)
  {
    && Step(db, out.db, links, rank, t, patch)
    && (out.ok || NoCascade(links, t, patch) ==> Intact(out.db, links, promises))
    && IntactBut(out.db, links, promises, patch)
  }

  lemma KeepsThenKeeps(db: Db, mid: Result, out: Result, links: seq<Link>, rank: Table -> nat, t: Table,
                       patch: Option<Patch>, promises: set<Promise>)
    requires Keeps(db, mid, links, rank, t, patch, promises) && Keeps(mid.db, out, links, rank, t, patch, promises)
    ensures Keeps(db, out, links, rank, t, patch, promises)
  {
    hide Step, Intact, IntactBut;
    StepThenStep(db, mid.db, out.db, links, rank, t, patch);
  }

  lemma NothingDone(db: Db, ok: bool, links: seq<Link>, rank: Table -> nat, t: Table, patch: Option<Patch>,
                    promises: set<Promise>)
    requires Intact(db, links, promises)
    ensures Keeps(db, Result(ok, db), links, rank, t, patch, promises)
  {
  }

  lemma {:induction false} SetOneKeeps(w: World, rank: Table -> nat, db: Db, l: Link, v: Value, newV: Value,
                                       depth: nat, patch: Option<Patch>, promises: set<Promise>)
    requires Sound(w, rank, db) && l in Links(w.schema) && !v.Null? && depth <= FK_MAX_CASCADE_DEPTH + 1
    requires Intact(db, Links(w.schema), promises)
    requires newV.Null? || (newV == NewOf(patch, l.refCol) && Eq(newV, newV)
                            && Promise(l.refTable, l.refCol, newV) in promises)
    ensures var out := SetOne(w, db, l, v, newV, depth);
      && Step(db, out.db, Links(w.schema), rank, l.refTable, patch)
      && (out.ok ==> Released(out.db, l, v, newV))
      && (out.ok || newV.Null? ==> Intact(out.db, Links(w.schema), promises))
      && IntactBut(out.db, Links(w.schema), promises, patch)
    decreases FK_MAX_CASCADE_DEPTH + 1 - depth, 5, 0
  {
    hide Released, Intact, IntactBut, Step, Enforced, AllReleased;
    var links := Links(w.schema);
    if depth > FK_MAX_CASCADE_DEPTH {
      NothingDone(db, false, links, rank, l.refTable, patch, promises);
      return;
    }
    var f, one := ColumnIs(l.col, v), map[l.col := newV];
    var affected := w.fetch(l.table, db[l.table], f);
    EnforcedKeeps(w, rank, db, l.table, affected, Some(one), depth, promises);
    var below := Enforced(w, db, l.table, affected, Some(one), depth);
    FetchedIsSelected(w, db, below.db, links, l.table, f, Some(one));
    SameRows(db, below.db, links, rank, l, Some(one));
    DeeperStep(db, below.db, links, rank, l, patch);
    if !newV.Null? {
      assert newV == patch.value[l.refCol] && NewValue(patch, newV);
    }
    SmallerPatch(below.db, links, promises, Some(one), patch);
    if below.ok {
      var rows := Patched(below.db[l.table], f, one, w.now);
      var done := below.db[l.table := rows];
      if w.accepts(l.table, below.db[l.table], rows) {
        SetStep(below.db, links, rank, l, f, newV, w.now, patch);
        StepThenStep(db, below.db, done, links, rank, l.refTable, patch);
        SetReleases(below.db, l, v, newV, w.now);
        WrittenIntact(below.db, links, rank, l, f, newV, w.now, promises);
        IntactIsIntactBut(done, links, promises, patch);
      }
    }
  }

  lemma SameRows(db: Db, after: Db, links: seq<Link>, rank: Table -> nat, l: Link, one: Option<Patch>)
    requires l.table in db && Step(db, after, links, rank, l.table, one)
    ensures after.Keys == db.Keys && after[l.table] == db[l.table]
    ensures Descends(db, after, links, rank, rank(l.table))
  {
    assert Rows(after, l.table) == Rows(db, l.table);
  }

  lemma IntactIsIntactBut(db: Db, links: seq<Link>, promises: set<Promise>, patch: Option<Patch>)
    requires Intact(db, links, promises)
    ensures IntactBut(db, links, promises, patch)
  {
  }

  /** The referencing rows get a value that is promised or NULL, and their own references have followed. */
  lemma WrittenIntact(db: Db, links: seq<Link>, rank: Table -> nat, l: Link, f: Filter, newV: Value, now: int,
                      promises: set<Promise>)
    requires l in links && l.table in db
    requires forall m :: m in links ==>
      m.table != m.refTable && m.col !in PSEUDO && m.refCol != "updated_at"
      && (m.table == l.table && m.col == l.col ==> m == l)
    requires newV.Null? || (Eq(newV, newV) && Promise(l.refTable, l.refCol, newV) in promises)
    requires var one := map[l.col := newV];
      && Intact(db, links, promises + Promises(l.table, Select(db[l.table], f), one))
      && AllReleased(db, links, l.table, Select(db[l.table], f), Some(one))
    ensures Intact(db[l.table := Patched(db[l.table], f, map[l.col := newV], now)], links, promises)
  {
    hide Intact, AllReleased;
    var one := map[l.col := newV];
    forall m | m in links && m.table == l.table && m.col in one && Select(db[l.table], f) != []
      ensures Supported(db, promises, m, one[m.col])
    {
      assert m == l;
      assert newV.Null? || Promised(promises, l, newV);
    }
    AfterPatch(db, links, l.table, f, one, now, promises);
  }

  lemma {:induction false} OneKeeps(w: World, rank: Table -> nat, db: Db, l: Link, v: Value, patch: Option<Patch>,
                                    depth: nat, promises: set<Promise>)
    requires Sound(w, rank, db) && l in Links(w.schema) && !v.Null? && depth <= FK_MAX_CASCADE_DEPTH
    requires Intact(db, Links(w.schema), promises) && Touches(patch, l.refCol) && CascadeCovered([l], patch, promises)
    ensures var out := One(w, db, l, v, patch, depth);
      && Keeps(db, out, Links(w.schema), rank, l.refTable, patch, promises)
      && (out.ok ==> Released(out.db, l, v, NewOf(patch, l.refCol)))
    decreases FK_MAX_CASCADE_DEPTH + 1 - depth, 0, 0
  {
    hide Intact, IntactBut, Step, Enforced, SetOne, AllReleased;
    var links := Links(w.schema);
    var f, action := ColumnIs(l.col, v), ActionOf(l, patch);
    assert l in [l];
    if action == Restrict {
      NothingDone(db, Select(db[l.table], f) == [], links, rank, l.refTable, patch, promises);
      assert forall r :: r in db[l.table] && Eq(Get(r, l.col), v) ==> r in Select(db[l.table], f);
    } else if action == SetNull {
      SetOneKeeps(w, rank, db, l, v, Null, depth + 1, patch, promises);
      NullReleases(SetOne(w, db, l, v, Null, depth + 1), l, v, NewOf(patch, l.refCol));
    } else if patch.Some? {
      SetOneKeeps(w, rank, db, l, v, NewOf(patch, l.refCol), depth + 1, patch, promises);
    } else {
      var affected := w.fetch(l.table, db[l.table], f);
      var below := Enforced(w, db, l.table, affected, None, depth + 1);
      FetchedIsSelected(w, db, below.db, links, l.table, f, None);
      EnforcedKeeps(w, rank, db, l.table, affected, None, depth + 1, promises);
      SameRows(db, below.db, links, rank, l, None);
      DeeperStep(db, below.db, links, rank, l, patch);
      if below.ok && w.accepts(l.table, below.db[l.table], Reject(below.db[l.table], f)) {
        var done := below.db[l.table := Reject(below.db[l.table], f)];
        AfterDelete(below.db, links, l.table, f, promises);
        DeleteStep(below.db, links, rank, l, f);
        StepThenStep(db, below.db, done, links, rank, l.refTable, patch);
        DeleteReleases(below.db, l, v);
        IntactIsIntactBut(done, links, promises, patch);
      }
    }
  }

  lemma NullReleases(out: Result, l: Link, v: Value, newV: Value)
    requires out.ok ==> Released(out.db, l, v, Null)
    ensures out.ok && !v.Null? ==> Released(out.db, l, v, newV)
  {
    if out.ok && !v.Null? {
      forall u | u in ColValues(out.db, l) && Eq(u, v)
        ensures Eq(u, newV)
      {
        assert Eq(u, Null);
      }
    }
  }

  lemma DeleteReleases(db: Db, l: Link, v: Value)
    requires l.table in db
    ensures Released(db[l.table := Reject(db[l.table], ColumnIs(l.col, v))], l, v, Null)
  {
  }

  lemma DeleteStep(db: Db, links: seq<Link>, rank: Table -> nat, l: Link, f: Filter)
    requires l in links && l.table in db && rank(l.table) < rank(l.refTable)
    ensures Step(db, db[l.table := Reject(db[l.table], f)], links, rank, l.refTable, None)
  {
    var after := db[l.table := Reject(db[l.table], f)];
    forall m | m in links
      ensures ColValues(after, m) <= ColValues(db, m)
    {
      assert forall r :: r in Rows(after, m.table) ==> r in Rows(db, m.table);
    }
  }

  /** One row's value: every referencer in turn, each following its own action. */
  lemma {:induction false} EachKeeps(w: World, rank: Table -> nat, db: Db, refs: seq<Link>, t: Table, v: Value,
                                     patch: Option<Patch>, depth: nat, promises: set<Promise>)
    requires Sound(w, rank, db) && !v.Null? && depth <= FK_MAX_CASCADE_DEPTH
    requires forall l :: l in refs ==> l in Links(w.schema) && l.refTable == t && Touches(patch, l.refCol)
    requires Intact(db, Links(w.schema), promises) && CascadeCovered(refs, patch, promises)
    ensures var out := Each(w, db, refs, v, patch, depth);
      && Keeps(db, out, Links(w.schema), rank, t, patch, promises)
      && (out.ok ==> RefsReleased(out.db, refs, v, patch))
    decreases FK_MAX_CASCADE_DEPTH + 1 - depth, 1, |refs|
  {
    hide Keeps, Intact, Released, One;
    var links := Links(w.schema);
    NothingDone(db, true, links, rank, t, patch, promises);
    if refs != [] {
      OneKeeps(w, rank, db, refs[0], v, patch, depth, promises);
      var first := One(w, db, refs[0], v, patch, depth);
      if first.ok {
        KeepsIntact(db, first, links, rank, t, patch, promises);
        EachKeeps(w, rank, first.db, refs[1..], t, v, patch, depth, promises);
        var out := Each(w, first.db, refs[1..], v, patch, depth);
        KeepsThenKeeps(db, first, out, links, rank, t, patch, promises);
        KeepsIntact(first.db, out, links, rank, t, patch, promises);
        if out.ok {
          ReleasedAfterStep(first.db, out.db, links, rank, refs[0], v, patch);
        }
      }
    }
  }

  lemma KeepsIntact(db: Db, out: Result, links: seq<Link>, rank: Table -> nat, t: Table, patch: Option<Patch>,
                    promises: set<Promise>)
    requires Keeps(db, out, links, rank, t, patch, promises)
    ensures Step(db, out.db, links, rank, t, patch) && out.db.Keys == db.Keys
    ensures out.ok ==> Intact(out.db, links, promises)
  {
  }

  /** One column: every affected row's value. */
  lemma {:induction false} EachRowKeeps(w: World, rank: Table -> nat, db: Db, refs: seq<Link>, t: Table, c: Column,
                                        affected: seq<Row>, patch: Option<Patch>, depth: nat, promises: set<Promise>)
    requires Sound(w, rank, db) && depth <= FK_MAX_CASCADE_DEPTH
    requires forall l :: l in refs ==> l in Links(w.schema) && l.refTable == t && Touches(patch, l.refCol)
    requires Intact(db, Links(w.schema), promises) && (affected != [] ==> CascadeCovered(refs, patch, promises))
    ensures var out := EachRow(w, db, refs, c, affected, patch, depth);
      && Keeps(db, out, Links(w.schema), rank, t, patch, promises)
      && (out.ok ==> ColumnReleased(out.db, refs, c, affected, patch))
    decreases FK_MAX_CASCADE_DEPTH + 1 - depth, 2, |affected|
  {
    hide Keeps, Intact, RefsReleased, Each;
    var links := Links(w.schema);
    NothingDone(db, true, links, rank, t, patch, promises);
    if affected != [] {
      var v := Get(affected[0], c);
      var first := if v.Null? then Result(true, db) else Each(w, db, refs, v, patch, depth);
      if !v.Null? {
        EachKeeps(w, rank, db, refs, t, v, patch, depth, promises);
      }
      if first.ok {
        KeepsIntact(db, first, links, rank, t, patch, promises);
        EachRowKeeps(w, rank, first.db, refs, t, c, affected[1..], patch, depth, promises);
        var out := EachRow(w, first.db, refs, c, affected[1..], patch, depth);
        KeepsThenKeeps(db, first, out, links, rank, t, patch, promises);
        KeepsIntact(first.db, out, links, rank, t, patch, promises);
        if out.ok && !v.Null? {
          RefsReleasedAfterStep(first.db, out.db, links, rank, refs, t, v, patch);
        }
      }
    }
  }

  lemma {:induction false} EachColumnKeeps(w: World, rank: Table -> nat, db: Db, t: Table, cols: seq<Column>,
                                           affected: seq<Row>, patch: Option<Patch>, depth: nat,
                                           promises: set<Promise>)
    requires Sound(w, rank, db) && depth <= FK_MAX_CASCADE_DEPTH && Intact(db, Links(w.schema), promises)
    requires affected != [] ==> CascadeCovered(RefsTo(Links(w.schema), t), patch, promises)
    ensures var out := EachColumn(w, db, t, cols, affected, patch, depth);
      && Keeps(db, out, Links(w.schema), rank, t, patch, promises)
      && (out.ok ==> ColumnsReleased(out.db, Links(w.schema), t, cols, affected, patch))
    decreases FK_MAX_CASCADE_DEPTH + 1 - depth, 3, |cols|
  {
    hide Keeps, Intact, ColumnReleased, EachRow, Found;
    var links := Links(w.schema);
    NothingDone(db, true, links, rank, t, patch, promises);
    if cols != [] {
      var c := cols[0];
      var refs := Found(links, t, c);
      RefsToMatch(links, t);
      var first := if Touches(patch, c) then EachRow(w, db, refs, c, affected, patch, depth) else Result(true, db);
      if Touches(patch, c) {
        EachRowKeeps(w, rank, db, refs, t, c, affected, patch, depth, promises);
      }
      if first.ok {
        KeepsIntact(db, first, links, rank, t, patch, promises);
        EachColumnKeeps(w, rank, first.db, t, cols[1..], affected, patch, depth, promises);
        var out := EachColumn(w, first.db, t, cols[1..], affected, patch, depth);
        KeepsThenKeeps(db, first, out, links, rank, t, patch, promises);
        KeepsIntact(first.db, out, links, rank, t, patch, promises);
        if out.ok && Touches(patch, c) {
          ColumnReleasedAfterStep(first.db, out.db, links, rank, refs, t, c, affected, patch);
        }
      }
    }
  }

  /** All links to a table. */
  function RefsTo(links: seq<Link>, t: Table): seq<Link> {
    if links == [] then [] else (if links[0].refTable == t then [links[0]] else []) + RefsTo(links[1..], t)
  }

  lemma {:induction false} RefsToMatch(links: seq<Link>, t: Table)
    ensures forall l :: l in RefsTo(links, t) <==> l in links && l.refTable == t
  {
    if links != [] {
      RefsToMatch(links[1..], t);
    }
  }

  /** Before any row of `t` is deleted or updated: on success no row depends on the old values, and references
      are intact given the new values `t` is about to have. */
  lemma {:induction false} EnforcedKeeps(w: World, rank: Table -> nat, db: Db, t: Table, affected: seq<Row>,
                                         patch: Option<Patch>, depth: nat, promises: set<Promise>)
    requires Sound(w, rank, db) && depth <= FK_MAX_CASCADE_DEPTH + 1
    requires Intact(db, Links(w.schema), promises) && Safe(Links(w.schema), t, patch)
    ensures var out := Enforced(w, db, t, affected, patch, depth);
      && Step(db, out.db, Links(w.schema), rank, t, patch)
      && (out.ok ==> AllReleased(out.db, Links(w.schema), t, affected, patch))
      && (out.ok ==> Intact(out.db, Links(w.schema),
                            promises + if patch.Some? then Promises(t, affected, patch.value) else {}))
      && (NoCascade(Links(w.schema), t, patch) ==> Intact(out.db, Links(w.schema), promises))
      && IntactBut(out.db, Links(w.schema), promises, patch)
    decreases FK_MAX_CASCADE_DEPTH + 1 - depth, 4, 0
  {
    hide Intact, ColumnsReleased, EachColumn, AllReleased, EnforcedColumns, IntactBut, Step, Promises;
    var links := Links(w.schema);
    if depth > FK_MAX_CASCADE_DEPTH {
      NothingDone(db, false, links, rank, t, patch, promises);
      return;
    }
    var granted := promises + if patch.Some? then Promises(t, affected, patch.value) else {};
    var relied := if NoCascade(links, t, patch) then promises else granted;
    IntactMonotone(db, links, promises, relied);
    CoveredByPromises(links, t, affected, patch, promises);
    EachColumnKeeps(w, rank, db, t, EnforcedColumns(w.schema, t), affected, patch, depth, relied);
    var out := EachColumn(w, db, t, EnforcedColumns(w.schema, t), affected, patch, depth);
    if out.ok {
      EveryColumnReleased(out.db, w.schema, t, affected, patch);
      IntactMonotone(out.db, links, relied, granted);
    }
    if relied != promises {
      WithoutPromises(out.db, links, promises, t, affected, patch.value);
    }
  }

  lemma CoveredByPromises(links: seq<Link>, t: Table, affected: seq<Row>, patch: Option<Patch>,
                          promises: set<Promise>)
    requires Safe(links, t, patch)
    ensures NoCascade(links, t, patch) ==> CascadeCovered(RefsTo(links, t), patch, promises)
    ensures affected != [] && patch.Some? ==>
      CascadeCovered(RefsTo(links, t), patch, promises + Promises(t, affected, patch.value))
  {
    RefsToMatch(links, t);
  }

  // ---------------------------------------------------------------- DELETE and UPDATE

  /** After a DELETE references are intact whatever the status, even when a cascade fails partway down. */
  lemma DeleteKeepsIntegrity(w: World, rank: Table -> nat, db: Db, t: Table, f: Filter)
    requires Sound(w, rank, db) && t in db && Intact(db, Links(w.schema), {})
    ensures var out := Deleted(w, db, t, f);
      && Intact(out.db, Links(w.schema), {})
      && Rows(out.db, t) == (if out.ok then Reject(db[t], f) else db[t])
      && forall u :: rank(u) >= rank(t) && u != t ==> Rows(out.db, u) == Rows(db, u)
  {
    hide Intact, AllReleased, Enforced;
    var links := Links(w.schema);
    EnforcedKeeps(w, rank, db, t, w.fetch(t, db[t], f), None, 0, {});
    var below := Enforced(w, db, t, w.fetch(t, db[t], f), None, 0);
    FetchedIsSelected(w, db, below.db, links, t, f, None);
    assert Rows(below.db, t) == Rows(db, t);
    if below.ok {
      AfterDelete(below.db, links, t, f, {});
    }
  }

  /** After an UPDATE: success leaves no dangling reference, although cascaded rows carry the new value before
      their parent does. Failure leaves none either when no ON UPDATE CASCADE has a value to hand down, and
      otherwise none but references to the new values. */
  lemma {:induction false} UpdateKeepsIntegrity(w: World, rank: Table -> nat, db: Db, t: Table, f: Filter, patch: Patch)
    requires Sound(w, rank, db) && t in db && Intact(db, Links(w.schema), {})
    ensures var out := Updated(w, db, t, f, patch);
      && (out.ok && Safe(Links(w.schema), t, Some(patch)) ==> Intact(out.db, Links(w.schema), {}))
      && (NoCascade(Links(w.schema), t, Some(patch)) ==> Intact(out.db, Links(w.schema), {}))
      && (Safe(Links(w.schema), t, Some(patch)) ==> IntactBut(out.db, Links(w.schema), {}, Some(patch)))
      && (Safe(Links(w.schema), t, Some(patch)) ==>
            && Rows(out.db, t) == (if out.ok then Patched(db[t], f, patch, w.now) else db[t])
            && forall u :: rank(u) >= rank(t) && u != t ==> Rows(out.db, u) == Rows(db, u))
  {
    hide Intact, AllReleased, Enforced, ChildPasses, NoCascade, Safe, IntactBut, Patched, Select, FkOf;
    var links := Links(w.schema);
    NoCascadeIsSafe(links, t, Some(patch));
    IntactIsIntactBut(db, links, {}, Some(patch));
    if Safe(links, t, Some(patch)) && ChildPasses(db, links, t, patch) {
      var below := Enforced(w, db, t, w.fetch(t, db[t], f), Some(patch), 0);
      EnforcedKeeps(w, rank, db, t, w.fetch(t, db[t], f), Some(patch), 0, {});
      FetchedIsSelected(w, db, below.db, links, t, f, Some(patch));
      assert Rows(below.db, t) == Rows(db, t);
      if below.ok && w.accepts(t, below.db[t], Patched(below.db[t], f, patch, w.now)) {
        var done := below.db[t := Patched(below.db[t], f, patch, w.now)];
        CheckedParents(w.schema, db, below.db, t, patch, rank);
        AfterPatch(below.db, links, t, f, patch, w.now, {});
        IntactIsIntactBut(done, links, {}, Some(patch));
      }
    }
  }

  lemma NoCascadeIsSafe(links: seq<Link>, t: Table, patch: Option<Patch>)
    ensures NoCascade(links, t, patch) ==> Safe(links, t, patch)
  {
  }

  /** The parents found by the check are still there: they are in tables enforcement does not touch. */
  lemma CheckedParents(schema: Schema, db: Db, after: Db, t: Table, patch: Patch, rank: Table -> nat)
    requires WellFormed(schema) && Ranked(schema, rank) && ChildPasses(db, Links(schema), t, patch)
    requires forall u :: rank(u) >= rank(t) ==> Rows(after, u) == Rows(db, u)
    ensures forall l :: l in Links(schema) && l.table == t && l.col in patch ==> Supported(after, {}, l, patch[l.col])
  {
    forall l | l in Links(schema) && l.table == t && l.col in patch
      ensures Supported(after, {}, l, patch[l.col])
    {
      assert FkOf(Links(schema), t, l.col) == Some(l);
      assert ValueHasParent(db, l, patch[l.col]);
      assert Rows(after, l.refTable) == Rows(db, l.refTable);
    }
  }

  /** `kdb_add`: the row is checked as it is given, and only then completed by the DEFAULTs and stored. */
  ghost function Added(w: World, db: Db, t: Table, r: Row): (out: Result)
    requires t in db
    ensures out.db.Keys == db.Keys
  {
    if !ChildPasses(db, Links(w.schema), t, r.fields) then Result(false, db)
    else Written(w, db, t, db[t] + [Stored(w.schema, t, r)])
  }

  /** The rows of a batch as they are stored. */
  function AllStored(schema: Schema, t: Table, rs: seq<Row>): seq<Row> {
    seq(|rs|, i requires 0 <= i < |rs| => Stored(schema, t, rs[i]))
  }

  /** `kdb_batch_import`, as far as foreign keys go: it checks none. */
  function Imported(w: World, db: Db, t: Table, rs: seq<Row>): Result
    requires t in db
  {
    Written(w, db, t, db[t] + AllStored(w.schema, t, rs))
  }

  /** Rows put behind an intact table leave references intact exactly when each of theirs has a parent then. */
  lemma AppendedIntactExactly(db: Db, links: seq<Link>, t: Table, more: seq<Row>)
    requires t in db && Intact(db, links, {})
    ensures var after := db[t := db[t] + more];
      Intact(after, links, {}) <==>
        forall l, r :: l in links && l.table == t && r in more ==> ValueHasParent(after, l, Get(r, l.col))
  {
    hide Get, Compare;
    var after := db[t := db[t] + more];
    if forall l, r :: l in links && l.table == t && r in more ==> ValueHasParent(after, l, Get(r, l.col)) {
      forall l, x | l in links && x in Rows(after, l.table)
        ensures Supported(after, {}, l, Get(x, l.col))
      {
        if x in Rows(db, l.table) {
          assert Supported(db, {}, l, Get(x, l.col));
          StillParent(db, t, more, l, Get(x, l.col));
        }
      }
    } else {
      var l, r :| l in links && l.table == t && r in more && !ValueHasParent(after, l, Get(r, l.col));
      assert r in Rows(after, l.table) && !Supported(after, {}, l, Get(r, l.col));
    }
  }

  lemma StillParent(db: Db, t: Table, more: seq<Row>, l: Link, v: Value)
    requires t in db
    ensures ValueHasParent(db, l, v) ==> ValueHasParent(db[t := db[t] + more], l, v)
  {
    hide Get, Compare;
    if HasParent(db, l, v) {
      var p :| p in Rows(db, l.refTable) && Eq(Get(p, l.refCol), v);
      assert p in Rows(db[t := db[t] + more], l.refTable);
    }
  }

  /** Every DEFAULT filled into an omitted foreign key column has a parent. */
  ghost predicate DefaultsHaveParents(db: Db, schema: Schema, t: Table, r: Row) {
    forall l :: l in Links(schema) && l.table == t && l.col !in r.fields && DefaultOf(schema, t, l.col).Some? ==>
      ValueHasParent(db, l, DefaultOf(schema, t, l.col).value)
  }

  /** A successful INSERT leaves references intact exactly when the DEFAULTs it filled in have parents then. */
  lemma AddIntactExactly(w: World, db: Db, t: Table, r: Row)
    requires WellFormed(w.schema) && t in db && Intact(db, Links(w.schema), {}) && Added(w, db, t, r).ok
    ensures Intact(Added(w, db, t, r).db, Links(w.schema), {}) <==>
      DefaultsHaveParents(Added(w, db, t, r).db, w.schema, t, r)
  {
    hide Get, Compare, Intact, Completed, Links;
    var links, x := Links(w.schema), Stored(w.schema, t, r);
    var after := db[t := db[t] + [x]];
    AppendedIntactExactly(db, links, t, [x]);
    forall l | l in links && l.table == t
      ensures ValueHasParent(after, l, Get(x, l.col)) <==>
        (l.col !in r.fields && DefaultOf(w.schema, t, l.col).Some? ==>
          ValueHasParent(after, l, DefaultOf(w.schema, t, l.col).value))
    {
      StoredColumn(w.schema, t, r, l.col);
      assert FkOf(links, t, l.col) == Some(l);
      if l.col in r.fields {
        assert ValueHasParent(db, l, r.fields[l.col]);
        StillParent(db, t, [x], l, r.fields[l.col]);
      }
    }
    assert x in [x];
  }

  lemma StoredColumn(schema: Schema, t: Table, r: Row, c: Column)
    requires c !in PSEUDO
    ensures Get(Stored(schema, t, r), c) ==
      if c in r.fields then r.fields[c]
      else if DefaultOf(schema, t, c).Some? then DefaultOf(schema, t, c).value else Null
  {
    CompletedIs(ColumnsOf(schema, t), r.fields, c);
  }

  /** A batch import leaves them intact exactly when each stored row's foreign keys have parents then. */
  lemma ImportIntactExactly(w: World, db: Db, t: Table, rs: seq<Row>)
    requires t in db && Intact(db, Links(w.schema), {}) && Imported(w, db, t, rs).ok
    ensures Intact(Imported(w, db, t, rs).db, Links(w.schema), {}) <==>
      forall l, r :: l in Links(w.schema) && l.table == t && r in AllStored(w.schema, t, rs) ==>
        ValueHasParent(Imported(w, db, t, rs).db, l, Get(r, l.col))
  {
    AppendedIntactExactly(db, Links(w.schema), t, AllStored(w.schema, t, rs));
  }

  class Database {
    const schema: Schema
    const accepts: Constraints
    const fetch: Fetching
    var rows: Db

    predicate Valid()
      reads this
    {
      Known(schema, rows)
    }

    function At(now: int): World {
      World(schema, accepts, fetch, now)
    }

    /** A well-formed schema without cycles, and queries that fetch what a scan would. */
    ghost predicate Orderly(now: int) {
      WellFormed(schema) && Acyclic(schema) && FetchesOnly(At(now)) && FetchesAll(At(now))
    }

    constructor (schema: Schema, accepts: Constraints, fetch: Fetching, rows: Db)
      requires Known(schema, rows)
      ensures Valid() && this.rows == rows
      ensures this.schema == schema && this.accepts == accepts && this.fetch == fetch
    {
      this.schema, this.accepts, this.fetch, this.rows := schema, accepts, fetch, rows;
    }

    /** One table's columns, appended until the array is full. `rest` is what later tables will add. */
    method FindInTable(def: TableDef, t: Table, c: Column, found: seq<Link>, ghost rest: seq<Link>)
      returns (out: seq<Link>)
      requires |found| < MAX_FK_REFERENCERS
      ensures |out| <= MAX_FK_REFERENCERS
      ensures out <= found + Referencers(ColumnLinks(def.name, def.columns), t, c) + rest
      ensures |out| < MAX_FK_REFERENCERS ==> out == found + Referencers(ColumnLinks(def.name, def.columns), t, c)
    {
      hide Referencers, ColumnLinks;
      NoColumnsNoLinks(def.name, t, c);
      out := found;
      ghost var here := Referencers(ColumnLinks(def.name, def.columns), t, c);
      var k := 0;
      assert def.columns[0..] == def.columns;
      while k < |def.columns| && |out| < MAX_FK_REFERENCERS
        invariant 0 <= k <= |def.columns| && |out| <= MAX_FK_REFERENCERS
        invariant found + here == out + Referencers(ColumnLinks(def.name, def.columns[k..]), t, c)
      {
        FirstColumn(def.name, def.columns[k..], t, c);
        assert def.columns[k..][1..] == def.columns[k + 1..];
        ghost var later := Referencers(ColumnLinks(def.name, def.columns[k + 1..]), t, c);
        match def.columns[k].fk {
          case None =>
          case Some(fk) =>
            var l := Link(def.name, def.columns[k].name, fk.refTable, fk.refCol, fk.onDelete, fk.onUpdate);
            if fk.refTable == t && fk.refCol == c {
              assert out + ([l] + later) == (out + [l]) + later;
              out := out + [l];
            }
        }
        k := k + 1;
      }
    }

    /** Scans every table's columns, stopping once `MAX_FK_REFERENCERS` are found. */
    method FindReferencers(t: Table, c: Column) returns (out: seq<Link>)
      ensures out == Found(Links(schema), t, c)
    {
      out := [];
      var i := 0;
      assert schema[0..] == schema;
      while i < |schema| && |out| < MAX_FK_REFERENCERS
        invariant 0 <= i <= |schema| && |out| <= MAX_FK_REFERENCERS
        invariant out <= Referencers(Links(schema), t, c)
        invariant |out| < MAX_FK_REFERENCERS ==>
          Referencers(Links(schema), t, c) == out + Referencers(Links(schema[i..]), t, c)
      {
        var def := schema[i];
        ghost var here := Referencers(ColumnLinks(def.name, def.columns), t, c);
        ghost var later := Referencers(Links(schema[i + 1..]), t, c);
        assert schema[i..][1..] == schema[i + 1..];
        ReferencersAppend(ColumnLinks(def.name, def.columns), Links(schema[i + 1..]), t, c);
        assert out + (here + later) == (out + here) + later;
        out := FindInTable(def, t, c, out, later);
        i := i + 1;
      }
    }

    /** `kdb_table_update`, `kdb_table_delete`: the new rows of a table, unless its own constraints refuse them. */
    method Write(t: Table, newRows: seq<Row>, now: int) returns (ok: bool)
      requires t in rows
      modifies this
      ensures Result(ok, rows) == Written(At(now), old(rows), t, newRows)
    {
      ok := accepts(t, rows[t], newRows);
      if ok {
        rows := rows[t := newRows];
      }
    }

    /** `kdb__cascade_set_one_field`. */
    method CascadeSetOneField(l: Link, v: Value, newV: Value, depth: nat, now: int) returns (ok: bool)
      requires Valid() && l in Links(schema) && depth <= FK_MAX_CASCADE_DEPTH + 1
      modifies this
      ensures Valid() && Result(ok, rows) == SetOne(At(now), old(rows), l, v, newV, depth)
      decreases FK_MAX_CASCADE_DEPTH + 1 - depth, 4
    {
      if depth > FK_MAX_CASCADE_DEPTH {
        return false;
      }
      var f, one := ColumnIs(l.col, v), map[l.col := newV];
      var affected := fetch(l.table, rows[l.table], f);
      ok := Enforce(l.table, affected, Some(one), depth, now);
      if ok {
        ok := Write(l.table, Patched(rows[l.table], f, one, now), now);
      }
    }

    /** One referencer's action on one value. */
    method EnforceOne(l: Link, v: Value, patch: Option<Patch>, depth: nat, now: int) returns (ok: bool)
      requires Valid() && l in Links(schema) && depth <= FK_MAX_CASCADE_DEPTH
      modifies this
      ensures Valid() && Result(ok, rows) == One(At(now), old(rows), l, v, patch, depth)
      decreases FK_MAX_CASCADE_DEPTH + 1 - depth, 0
    {
      hide Enforced, SetOne, Links;
      var action := ActionOf(l, patch);
      var f := ColumnIs(l.col, v);
      if action == Restrict {
        ok := |Select(rows[l.table], f)| == 0;
      } else if action == SetNull {
        ok := CascadeSetOneField(l, v, Null, depth + 1, now);
      } else if patch.Some? {
        ok := CascadeSetOneField(l, v, NewOf(patch, l.refCol), depth + 1, now);
      } else {
        var affected := fetch(l.table, rows[l.table], f);
        ok := Enforce(l.table, affected, None, depth + 1, now);
        if ok {
          ok := Write(l.table, Reject(rows[l.table], f), now);
        }
      }
    }

    /** One row's value: every referencer in turn. */
    method EnforceValue(refs: seq<Link>, v: Value, patch: Option<Patch>, depth: nat, now: int) returns (ok: bool)
      requires Valid() && (forall l :: l in refs ==> l in Links(schema)) && depth <= FK_MAX_CASCADE_DEPTH
      modifies this
      ensures Valid() && Result(ok, rows) == Each(At(now), old(rows), refs, v, patch, depth)
      decreases FK_MAX_CASCADE_DEPTH + 1 - depth, 1
    {
      hide One;
      var i := 0;
      assert refs[0..] == refs;
      while i < |refs|
        invariant 0 <= i <= |refs| && Valid()
        invariant Each(At(now), rows, refs[i..], v, patch, depth) == Each(At(now), old(rows), refs, v, patch, depth)
      {
        assert refs[i..][1..] == refs[i + 1..];
        ok := EnforceOne(refs[i], v, patch, depth, now);
        if !ok {
          return;
        }
        i := i + 1;
      }
      ok := true;
    }

    /** One column: every affected row's value. */
    method EnforceColumn(refs: seq<Link>, c: Column, affected: seq<Row>, patch: Option<Patch>, depth: nat, now: int)
      returns (ok: bool)
      requires Valid() && (forall l :: l in refs ==> l in Links(schema)) && depth <= FK_MAX_CASCADE_DEPTH
      modifies this
      ensures Valid() && Result(ok, rows) == EachRow(At(now), old(rows), refs, c, affected, patch, depth)
      decreases FK_MAX_CASCADE_DEPTH + 1 - depth, 2
    {
      hide Each;
      var i := 0;
      assert affected[0..] == affected;
      while i < |affected|
        invariant 0 <= i <= |affected| && Valid()
        invariant EachRow(At(now), rows, refs, c, affected[i..], patch, depth)
               == EachRow(At(now), old(rows), refs, c, affected, patch, depth)
      {
        assert affected[i..][1..] == affected[i + 1..];
        var v := Get(affected[i], c);
        if !v.Null? {
          ok := EnforceValue(refs, v, patch, depth, now);
          if !ok {
            return;
          }
        }
        i := i + 1;
      }
      ok := true;
    }

    /** `kdb__enforce_fk_referential_actions`: decides, before any row of `t` is deleted or updated, what becomes
        of the rows referencing it. */
    method Enforce(t: Table, affected: seq<Row>, patch: Option<Patch>, depth: nat, now: int) returns (ok: bool)
      requires Valid() && depth <= FK_MAX_CASCADE_DEPTH + 1
      modifies this
      ensures Valid() && Result(ok, rows) == Enforced(At(now), old(rows), t, affected, patch, depth)
      decreases FK_MAX_CASCADE_DEPTH + 1 - depth, 3
    {
      hide EachRow, Found;
      if depth > FK_MAX_CASCADE_DEPTH {
        return false;
      }
      var cols := EnforcedColumns(schema, t);
      var ci := 0;
      assert cols[0..] == cols;
      while ci < |cols|
        invariant 0 <= ci <= |cols| && Valid()
        invariant EachColumn(At(now), rows, t, cols[ci..], affected, patch, depth)
               == EachColumn(At(now), old(rows), t, cols, affected, patch, depth)
      {
        assert cols[ci..][1..] == cols[ci + 1..];
        if Touches(patch, cols[ci]) {
          var refs := FindReferencers(t, cols[ci]);
          ok := EnforceColumn(refs, cols[ci], affected, patch, depth, now);
          if !ok {
            return;
          }
        }
        ci := ci + 1;
      }
      ok := true;
    }

    /** The child side of an INSERT or UPDATE: it passes exactly when every foreign key value written has a
        parent row now. */
    method CheckFkChild(t: Table, values: map<Column, Value>) returns (ok: bool)
      ensures ok <==> ChildPasses(rows, Links(schema), t, values)
    {
      hide Links, FkOf;
      var left := values.Keys;
      while left != {}
        invariant left <= values.Keys
        invariant forall c :: c in values && c !in left && FkOf(Links(schema), t, c).Some? ==>
          ValueHasParent(rows, FkOf(Links(schema), t, c).value, values[c])
        decreases left
      {
        var c :| c in left;
        var fk := FkOf(Links(schema), t, c);
        if fk.Some? && !values[c].Null? {
          var l := fk.value;
          var parents := Select(Rows(rows, l.refTable), ColumnIs(l.refCol, values[c]));
          if |parents| == 0 {
            forall p | p in Rows(rows, l.refTable)
              ensures !Eq(Get(p, l.refCol), values[c])
            {
              assert p !in parents;
            }
            assert !ValueHasParent(rows, l, values[c]);
            return false;
          }
          assert parents[0] in parents;
          assert parents[0] in Rows(rows, l.refTable) && Eq(Get(parents[0], l.refCol), values[c]);
          assert HasParent(rows, l, values[c]);
        }
        left := left - {c};
      }
      ok := true;
    }

    /** `kdb_table_apply_defaults`: the columns in order, each omitted one with its DEFAULT. */
    method ApplyDefaults(t: Table, r: Row) returns (out: Row)
      ensures out == Stored(schema, t, r)
    {
      var columns, fields := ColumnsOf(schema, t), r.fields;
      var i := 0;
      assert columns[0..] == columns;
      while i < |columns|
        invariant 0 <= i <= |columns|
        invariant Completed(columns[i..], fields) == Completed(columns, r.fields)
      {
        assert columns[i..][1..] == columns[i + 1..];
        if columns[i].default.Some? && columns[i].name !in fields {
          fields := fields[columns[i].name := columns[i].default.value];
        }
        i := i + 1;
      }
      out := r.(fields := fields);
    }

    /** `kdb_add`. */
    method Add(t: Table, r: Row, now: int) returns (ok: bool)
      requires Valid() && t in rows
      modifies this
      ensures Valid() && Result(ok, rows) == Added(At(now), old(rows), t, r)
      ensures WellFormed(schema) && Intact(old(rows), Links(schema), {}) && ok ==>
        (Intact(rows, Links(schema), {}) <==> DefaultsHaveParents(rows, schema, t, r))
    {
      hide WellFormed, Intact, ChildPasses, DefaultsHaveParents;
      if WellFormed(schema) && Intact(rows, Links(schema), {}) && Added(At(now), rows, t, r).ok {
        AddIntactExactly(At(now), rows, t, r);
      }
      ok := CheckFkChild(t, r.fields);
      if ok {
        var stored := ApplyDefaults(t, r);
        ok := Write(t, rows[t] + [stored], now);
      }
    }

    /** `kdb_delete`. */
    method Delete(t: Table, f: Filter, now: int) returns (ok: bool)
      requires Valid() && t in rows
      modifies this
      ensures Valid() && Result(ok, rows) == Deleted(At(now), old(rows), t, f)
      ensures Orderly(now) && Intact(old(rows), Links(schema), {}) ==>
        Intact(rows, Links(schema), {})
    {
      hide WellFormed, Intact, Enforced, FetchesOnly, FetchesAll;
      if Orderly(now) && Intact(rows, Links(schema), {}) {
        var rank: Table -> nat :| Ranked(schema, rank);
        DeleteKeepsIntegrity(At(now), rank, rows, t, f);
      }
      var affected := fetch(t, rows[t], f);
      ok := Enforce(t, affected, None, 0, now);
      if ok {
        ok := Write(t, Reject(rows[t], f), now);
      }
    }

    /** `kdb_update`. */
    method Update(t: Table, f: Filter, patch: Patch, now: int) returns (ok: bool)
      requires Valid() && t in rows
      modifies this
      ensures Valid() && Result(ok, rows) == Updated(At(now), old(rows), t, f, patch)
      ensures Orderly(now) && Intact(old(rows), Links(schema), {}) ==>
        && (ok && Safe(Links(schema), t, Some(patch)) ==> Intact(rows, Links(schema), {}))
        && (NoCascade(Links(schema), t, Some(patch)) ==> Intact(rows, Links(schema), {}))
        && (Safe(Links(schema), t, Some(patch)) ==> IntactBut(rows, Links(schema), {}, Some(patch)))
    {
      hide WellFormed, Intact, Enforced, ChildPasses, Safe, NoCascade, IntactBut, FetchesOnly, FetchesAll;
      if Orderly(now) && Intact(rows, Links(schema), {}) {
        var rank: Table -> nat :| Ranked(schema, rank);
        UpdateKeepsIntegrity(At(now), rank, rows, t, f, patch);
      }
      ok := CheckFkChild(t, patch);
      if !ok {
        return;
      }
      var affected := fetch(t, rows[t], f);
      ok := Enforce(t, affected, Some(patch), 0, now);
      if ok {
        ok := Write(t, Patched(rows[t], f, patch, now), now);
      }
    }
  }
}
