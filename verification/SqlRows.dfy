/** Rows of a SELECT and their equality (src/sql.c). Numbers compare as doubles. */
module SqlRows {
  import opened Values

  type Row = seq<Field>

  predicate FieldEqual(a: Value, b: Value) {
    if IsNumber(a) && IsNumber(b) then ToReal(a) == ToReal(b)
    else a.Str? && b.Str? && a.s == b.s
  }

  predicate SameType(a: Value, b: Value) {
    match a
    case Null => b.Null?
    case Int(_) => b.Int?
    case Float(_) => b.Float?
    case Bool(_) => b.Bool?
    case Str(_) => b.Str?
    case Blob(_) => b.Blob?
    case Array(_) => b.Array?
    case Object(_) => b.Object?
    case Unknown(tag) => b.Unknown? && b.tag == tag
  }

  predicate CellEqual(a: Value, b: Value) {
    SameType(a, b) && (a.Null? || FieldEqual(a, b))
  }

  /** The same columns in the same order (sql.c `sql__row_shape_matches`). */
  predicate SameShape(a: Row, b: Row) {
    |a| == |b| && forall i :: 0 <= i < |a| ==> a[i].name == b[i].name
  }

  predicate SameValues(a: Row, b: Row) {
    |a| == |b| && forall i :: 0 <= i < |a| ==> CellEqual(a[i].value, b[i].value)
  }

  /** The row equality of DISTINCT and the set operators. */
  predicate RowEqual(a: Row, b: Row) {
    SameShape(a, b) && SameValues(a, b)
  }

  /** The values row equality knows: it finds blobs, arrays and objects different even from themselves. */
  predicate Scalar(v: Value) {
    v.Null? || IsNumber(v) || v.Str?
  }

  lemma RowEqualSymmetric(a: Row, b: Row)
    ensures RowEqual(a, b) <==> RowEqual(b, a)
  {
  }

  lemma RowEqualTransitive(a: Row, b: Row, c: Row)
    requires RowEqual(a, b) && RowEqual(b, c)
    ensures RowEqual(a, c)
  {
  }

  lemma RowEqualReflexive(a: Row)
    ensures RowEqual(a, a) <==> forall i :: 0 <= i < |a| ==> Scalar(a[i].value)
  {
  }

  /** Two fields are equal when they are numbers that denote the same one, or the same string. */
  lemma FieldEqualExactly(a: Value, b: Value)
    ensures FieldEqual(a, b) <==>
      || (a.Str? && b.Str? && |a.s| == |b.s| && forall i :: 0 <= i < |a.s| ==> a.s[i] == b.s[i])
      || (IsNumber(a) && IsNumber(b) && !(ToReal(a) < ToReal(b)) && !(ToReal(b) < ToReal(a)))
    ensures a.Int? && b.Int? && -TWO_53 <= a.i <= TWO_53 && -TWO_53 <= b.i <= TWO_53 ==>
      (FieldEqual(a, b) <==> a.i == b.i)
  {
    hide Nearest;
    if a.Int? && b.Int? {
      Doubles(0);
      DoubleIsNearest(a.i, 0);
      DoubleIsNearest(b.i, 0);
    }
  }

  /** Values that share their equality with no other one of their type. */
  predicate Exact(v: Value) {
    match v
    case Null => true
    case Int(i) => Int64(i) && LoneInt(i)
    case Float(bits) => bits < TWO_64 && bits % TWO_63 != 0
    case Bool(_) => true
    case Str(_) => true
    case _ => false
  }

  predicate ExactRow(r: Row) {
    forall i :: 0 <= i < |r| ==> Exact(r[i].value)
  }

  lemma CellEqualExactly(a: Value, b: Value)
    requires Exact(a) && Exact(b)
    ensures CellEqual(a, b) <==> a == b
  {
    hide DoubleOf, FloatOf, LoneInt;
    if a.Int? && b.Int? {
      LoneExactly(a.i);
    } else if a.Float? && b.Float? {
      SameFloat(a.bits, b.bits);
    }
  }

  /** On such values row equality is identity: the same names, types and values. */
  lemma RowEqualExactly(a: Row, b: Row)
    requires ExactRow(a) && ExactRow(b)
    ensures RowEqual(a, b) <==> a == b
  {
    hide CellEqual, Exact;
    forall i | 0 <= i < |a| && i < |b|
      ensures CellEqual(a[i].value, b[i].value) <==> a[i].value == b[i].value
    {
      CellEqualExactly(a[i].value, b[i].value);
    }
    if RowEqual(a, b) {
      assert forall i :: 0 <= i < |a| ==> a[i] == b[i];
    }
  }

  // ---------------------------------------------------------------- columns and their order

  /** The first field of that name. */
  function Get(row: Row, col: string): Option<Value> {
    if row == [] then None
    else if row[0].name == col then Some(row[0].value)
    else Get(row[1..], col)
  }

  /** No field has the name, or the first that has it holds the value. */
  lemma {:induction false} GetExactly(row: Row, col: string)
    ensures match Get(row, col)
            case None => forall i :: 0 <= i < |row| ==> row[i].name != col
            case Some(v) => exists i :: 0 <= i < |row| && row[i] == Field(col, v)
                                        && forall j :: 0 <= j < i ==> row[j].name != col
  {
    if row != [] && row[0].name != col {
      GetExactly(row[1..], col);
      if Get(row, col).Some? {
        var i :| 0 <= i < |row[1..]| && row[1..][i] == Field(col, Get(row, col).value)
                 && forall j :: 0 <= j < i ==> row[1..][j].name != col;
        assert row[i + 1] == Field(col, Get(row, col).value);
        assert forall j :: 0 < j < i + 1 ==> row[j] == row[1..][j - 1];
      } else {
        assert forall i :: 0 < i < |row| ==> row[i] == row[1..][i - 1];
      }
    }
  }

  function Sign(o: Order): int {
    if o == Less then -1 else if o == Greater then 1 else 0
  }

  /** `sql__field_cmp`: values that do not mix count as equal. */
  function FieldCmp(a: Value, b: Value): int {
    if IsNumber(a) && IsNumber(b) then Sign(CompareReals(ToReal(a), ToReal(b)))
    else if a.Str? && b.Str? then Sign(CompareStrings(a.s, b.s))
    else 0
  }

  /** Strings compare in dictionary order and numbers by what they denote; nothing else is less than anything. */
  lemma FieldCmpExactly(a: Value, b: Value)
    ensures FieldCmp(a, b) < 0 <==>
      (a.Str? && b.Str? && Earlier(a.s, b.s)) || (IsNumber(a) && IsNumber(b) && ToReal(a) < ToReal(b))
    ensures FieldCmp(a, b) > 0 <==> FieldCmp(b, a) < 0
    ensures a.Int? && b.Int? && -TWO_53 <= a.i <= TWO_53 && -TWO_53 <= b.i <= TWO_53 ==>
      (FieldCmp(a, b) < 0 <==> a.i < b.i)
  {
    hide DoubleOf, FloatOf;
    if a.Str? && b.Str? {
      StringsCompare(a.s, b.s);
      StringsCompare(b.s, a.s);
    } else if a.Int? && b.Int? {
      Doubles(0);
      DoubleIsNearest(a.i, 0);
      DoubleIsNearest(b.i, 0);
    }
  }

  /** All numbers, or all strings: the columns on which `FieldCmp` is an order. */
  predicate Alike(numeric: bool, v: Value) {
    if numeric then IsNumber(v) else v.Str?
  }

  lemma {:induction false} StringsOpposed(a: string, b: string)
    ensures Sign(CompareStrings(a, b)) == -Sign(CompareStrings(b, a))
  {
    if a != "" && b != "" && a[0] == b[0] {
      StringsOpposed(a[1..], b[1..]);
    }
  }

  lemma {:induction false} StringsTransitive(a: string, b: string, c: string)
    requires Sign(CompareStrings(a, b)) <= 0 && Sign(CompareStrings(b, c)) <= 0
    ensures Sign(CompareStrings(a, c)) <= 0
  {
    if a != "" && b != "" && c != "" && a[0] == b[0] == c[0] {
      StringsTransitive(a[1..], b[1..], c[1..]);
    }
  }

  lemma FieldCmpOpposed(a: Value, b: Value)
    ensures FieldCmp(a, b) == -FieldCmp(b, a)
  {
    if a.Str? && b.Str? {
      StringsOpposed(a.s, b.s);
    }
  }

  lemma FieldCmpTransitive(numeric: bool, a: Value, b: Value, c: Value)
    requires Alike(numeric, a) && Alike(numeric, b) && Alike(numeric, c)
    requires FieldCmp(a, b) <= 0 && FieldCmp(b, c) <= 0
    ensures FieldCmp(a, c) <= 0
  {
    hide ToReal;
    if !numeric {
      StringsTransitive(a.s, b.s, c.s);
    }
  }
}
