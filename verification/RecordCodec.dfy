/** The on-disk form of a record (src/record.c), and frames of records one after the other.

  A record is a fixed header (id, the two timestamps, the number of fields, the deleted flag), then its fields:
  a name padded to 128 bytes and a value. A value is a type tag with seven bytes of padding, then a payload:
  integers and floats in eight bytes, little-endian; booleans in one; NULL in none; strings and blobs behind a
  length; arrays and objects behind a count, their elements inline. A frame is a record behind its size.
 */
module RecordCodec {
  import opened Values

  const MAX_COLUMNS: nat := 64
  const MAX_NAME_LEN: nat := 128
  const MAX_STRING_LEN: nat := 4096
  const MAX_NEST_ELEMS: nat := MAX_COLUMNS
  const MAX_NEST_DEPTH: nat := 16
  const MAX_RECORD_SERIAL_SIZE: nat := 16 * 1024 * 1024

  const RECORD_FIXED_SIZE: nat := 32
  const VALUE_HEADER_SIZE: nat := 8
  const FIELD_HEADER_SIZE: nat := MAX_NAME_LEN + VALUE_HEADER_SIZE

  datatype Record = Record(id: nat, createdAt: nat, updatedAt: nat, deleted: nat, fields: seq<Field>)

  // ---------------------------------------------------------------- bytes

  function Pow256(k: nat): nat {
    if k == 0 then 1 else 256 * Pow256(k - 1)
  }

  /** `n` in `k` bytes, least significant first. */
  function Bytes(n: nat, k: nat): (s: string)
    ensures |s| == k
  {
    if k == 0 then "" else [(n % 256) as char] + Bytes(n / 256, k - 1)
  }

  function Number(s: string): nat {
    if s == "" then 0 else s[0] as int + 256 * Number(s[1..])
  }

  predicate IsBytes(s: string) {
    forall i :: 0 <= i < |s| ==> s[i] as int < 256
  }

  lemma {:induction false} NumberOfBytes(n: nat, k: nat)
    ensures n < Pow256(k) ==> Number(Bytes(n, k)) == n
    ensures IsBytes(Bytes(n, k))
  {
    if k > 0 {
      NumberOfBytes(n / 256, k - 1);
      assert Bytes(n, k)[1..] == Bytes(n / 256, k - 1);
    }
  }

  lemma {:induction false} NumberBelow(s: string)
    requires IsBytes(s)
    ensures Number(s) < Pow256(|s|)
  {
    if s != "" {
      NumberBelow(s[1..]);
    }
  }

  lemma Powers()
    ensures Pow256(4) == 0x1_0000_0000 && Pow256(8) == TWO_64
  {
    assert Pow256(4) == 256 * (256 * (256 * (256 * Pow256(0))));
    assert Pow256(8) == 256 * (256 * (256 * (256 * Pow256(4))));
  }

  function Zeros(k: nat): (s: string)
    ensures |s| == k && forall i :: 0 <= i < k ==> s[i] == '\0'
  {
    seq(k, _ => '\0')
  }

  /** The C string at the start of a buffer: everything before the first NUL. */
  function CString(s: string): (r: string)
    ensures |r| <= |s| && r == s[..|r|] && '\0' !in r
    ensures |r| == |s| || s[|r|] == '\0'
  {
    if s == "" || s[0] == '\0' then ""
    else
      var rest := CString(s[1..]);
      assert s[..1 + |rest|] == [s[0]] + s[1..][..|rest|];
      [s[0]] + rest
  }

  lemma {:induction false} CStringOfPadded(n: string, k: nat)
    requires '\0' !in n
    ensures CString(n + Zeros(k)) == n
  {
    var s := n + Zeros(k);
    if n == "" {
      assert CString(s) == "";
    } else {
      assert n[0] in n && s[1..] == n[1..] + Zeros(k);
      CStringOfPadded(n[1..], k);
    }
  }

  /** Two's complement in 64 bits. */
  function Unsigned(i: int): nat {
    i % TWO_64
  }

  function Signed(n: nat): int {
    if n < TWO_63 then n else n - TWO_64
  }

  // ---------------------------------------------------------------- encoding

  function Tag(v: Value): nat {
    match v
    case Null => 0
    case Int(_) => 1
    case Float(_) => 2
    case Bool(_) => 3
    case Str(_) => 4
    case Blob(_) => 5
    case Array(_) => 6
    case Object(_) => 7
    case Unknown(tag) => tag
  }

  function Byte(n: nat): string {
    [(n % 256) as char]
  }

  function NameBytes(n: string): (s: string)
    ensures |s| == MAX_NAME_LEN
  {
    var c := CString(n);
    if |c| < MAX_NAME_LEN then c + Zeros(MAX_NAME_LEN - |c|) else c[..MAX_NAME_LEN - 1] + Zeros(1)
  }

  function ValueBytes(v: Value): string
    decreases v, 1
  {
    Byte(Tag(v)) + Zeros(7) + Payload(v)
  }

  function Payload(v: Value): string
    decreases v, 0
  {
    match v
    case Int(i) => Bytes(Unsigned(i), 8)
    case Float(bits) => Bytes(bits, 8)
    case Bool(b) => Byte(b)
    case Str(s) => Bytes(|s|, 4) + s + Zeros(1)
    case Blob(s) => Bytes(|s|, 4) + s
    case Array(items) => Bytes(|items|, 4) + ItemsBytes(items)
    case Object(fields) => Bytes(|fields|, 4) + FieldsBytes(fields)
    case _ => ""
  }

  function ItemsBytes(items: seq<Value>): string
    decreases items
  {
    if items == [] then "" else ValueBytes(items[0]) + ItemsBytes(items[1..])
  }

  function FieldsBytes(fields: seq<Field>): string
    decreases fields
  {
    if fields == [] then ""
    else NameBytes(fields[0].name) + ValueBytes(fields[0].value) + FieldsBytes(fields[1..])
  }

  function Fixed(r: Record): (s: string)
    ensures |s| == RECORD_FIXED_SIZE
  {
    Bytes(r.id, 8) + Bytes(r.createdAt, 8) + Bytes(r.updatedAt, 8) + Bytes(|r.fields|, 4) + Byte(r.deleted) + Zeros(3)
  }

  function Encode(r: Record): string {
    Fixed(r) + FieldsBytes(r.fields)
  }

  // ---------------------------------------------------------------- sizes

  function PayloadSize(v: Value): nat
    decreases v
  {
    match v
    case Int(_) => 8
    case Float(_) => 8
    case Bool(_) => 1
    case Str(s) => 4 + |s| + 1
    case Blob(s) => 4 + |s|
    case Array(items) => 4 + ItemsSize(items)
    case Object(fields) => 4 + FieldsSize(fields)
    case _ => 0
  }

  function ItemsSize(items: seq<Value>): nat
    decreases items
  {
    if items == [] then 0 else VALUE_HEADER_SIZE + PayloadSize(items[0]) + ItemsSize(items[1..])
  }

  function FieldsSize(fields: seq<Field>): nat
    decreases fields
  {
    if fields == [] then 0 else FIELD_HEADER_SIZE + PayloadSize(fields[0].value) + FieldsSize(fields[1..])
  }

  function SerialSize(r: Record): nat {
    RECORD_FIXED_SIZE + FieldsSize(r.fields)
  }

  /** Serialization writes exactly the announced number of bytes. */
  lemma {:induction false} PayloadHasSize(v: Value)
    ensures |Payload(v)| == PayloadSize(v) && |ValueBytes(v)| == VALUE_HEADER_SIZE + PayloadSize(v)
    decreases v
  {
    match v {
      case Array(items) => ItemsHaveSize(items);
      case Object(fields) => FieldsHaveSize(fields);
      case _ =>
    }
  }

  lemma {:induction false} ItemsHaveSize(items: seq<Value>)
    ensures |ItemsBytes(items)| == ItemsSize(items)
    decreases items
  {
    if items != [] {
      PayloadHasSize(items[0]);
      ItemsHaveSize(items[1..]);
    }
  }

  lemma {:induction false} FieldsHaveSize(fields: seq<Field>)
    ensures |FieldsBytes(fields)| == FieldsSize(fields)
    decreases fields
  {
    if fields != [] {
      PayloadHasSize(fields[0].value);
      FieldsHaveSize(fields[1..]);
    }
  }

  lemma EncodeHasSize(r: Record)
    ensures |Encode(r)| == SerialSize(r)
  {
    FieldsHaveSize(r.fields);
  }

  // ---------------------------------------------------------------- decoding

  /** What decoding yields: the result and the number of bytes it took. */
  datatype Parsed<+T> = Corrupt | Parsed(value: T, used: nat)

  /** A length-prefixed string or blob, with `extra` bytes behind it. */
  function ReadText(s: string, extra: nat): (p: Parsed<string>)
    ensures p.Parsed? ==> p.used <= |s|
  {
    if |s| < 4 then Corrupt else
    var n := Number(s[..4]);
    if n > MAX_STRING_LEN || |s| - 4 < n + extra then Corrupt else Parsed(s[4..4 + n], 4 + n + extra)
  }

  predicate HasCount(s: string) {
    |s| >= 4 && Number(s[..4]) <= MAX_NEST_ELEMS
  }

  /** A value: type tag and seven bytes of padding, then the payload. */
  function ReadValue(s: string, depth: nat): (p: Parsed<Value>)
    ensures p.Parsed? ==> p.used <= |s|
    decreases MAX_NEST_DEPTH + 1 - depth, 2, 0
  {
    if |s| < VALUE_HEADER_SIZE then Corrupt else
    match ReadPayload(s[0] as int, s[VALUE_HEADER_SIZE..], depth)
    case Corrupt => Corrupt
    case Parsed(v, used) => Parsed(v, VALUE_HEADER_SIZE + used)
  }

  function ReadPayload(tag: nat, s: string, depth: nat): (p: Parsed<Value>)
    ensures p.Parsed? ==> p.used <= |s|
    decreases MAX_NEST_DEPTH + 1 - depth, 1, 0
  {
    match tag
    case 0 => Parsed(Null, 0)
    case 1 => if |s| < 8 then Corrupt else Parsed(Int(Signed(Number(s[..8]))), 8)
    case 2 => if |s| < 8 then Corrupt else Parsed(Float(Number(s[..8])), 8)
    case 3 => if |s| < 1 then Corrupt else Parsed(Bool(s[0] as int), 1)
    case 4 =>
      (match ReadText(s, 1)
       case Corrupt => Corrupt
       case Parsed(t, used) => Parsed(Str(t), used))
    case 5 =>
      (match ReadText(s, 0)
       case Corrupt => Corrupt
       case Parsed(t, used) => Parsed(Blob(t), used))
    case 6 =>
      if depth >= MAX_NEST_DEPTH || !HasCount(s) then Corrupt else
      (match ReadItems(s[4..], Number(s[..4]), depth + 1)
       case Corrupt => Corrupt
       case Parsed(items, used) => Parsed(Array(items), 4 + used))
    case 7 =>
      if depth >= MAX_NEST_DEPTH || !HasCount(s) then Corrupt else
      (match ReadFields(s[4..], Number(s[..4]), depth + 1)
       case Corrupt => Corrupt
       case Parsed(fields, used) => Parsed(Object(fields), 4 + used))
    case _ => Parsed(Unknown(tag), 0)
  }

  function ReadItems(s: string, n: nat, depth: nat): (p: Parsed<seq<Value>>)
    ensures p.Parsed? ==> p.used <= |s| && |p.value| == n
    decreases MAX_NEST_DEPTH + 1 - depth, 3, n
  {
    if n == 0 then Parsed([], 0) else
    match ReadValue(s, depth)
    case Corrupt => Corrupt
    case Parsed(v, k) =>
      match ReadItems(s[k..], n - 1, depth)
      case Corrupt => Corrupt
      case Parsed(vs, used) => Parsed([v] + vs, k + used)
  }

  function ReadFields(s: string, n: nat, depth: nat): (p: Parsed<seq<Field>>)
    ensures p.Parsed? ==> p.used <= |s| && |p.value| == n
    decreases MAX_NEST_DEPTH + 1 - depth, 3, n
  {
    if n == 0 then Parsed([], 0) else
    if |s| < MAX_NAME_LEN then Corrupt else
    match ReadValue(s[MAX_NAME_LEN..], depth)
    case Corrupt => Corrupt
    case Parsed(v, k) =>
      match ReadFields(s[MAX_NAME_LEN + k..], n - 1, depth)
      case Corrupt => Corrupt
      case Parsed(fs, used) => Parsed([Field(CString(s[..MAX_NAME_LEN - 1]), v)] + fs, MAX_NAME_LEN + k + used)
  }

  function Decode(s: string): (p: Parsed<Record>)
    ensures p.Parsed? ==> p.used <= |s|
  {
    if |s| < RECORD_FIXED_SIZE then Corrupt else
    var n := Number(s[24..28]);
    if n > MAX_COLUMNS then Corrupt else
    match ReadFields(s[RECORD_FIXED_SIZE..], n, 0)
    case Corrupt => Corrupt
    case Parsed(fields, used) =>
      Parsed(Record(Number(s[..8]), Number(s[8..16]), Number(s[16..24]), s[28] as int, fields),
             RECORD_FIXED_SIZE + used)
  }

  // ---------------------------------------------------------------- round trip

  predicate FitsName(n: string) {
    |n| < MAX_NAME_LEN && '\0' !in n && IsBytes(n)
  }

  /** The limits within which a value at nesting level `depth` can be stored and read back. */
  predicate Fits(v: Value, depth: nat)
    decreases v
  {
    match v
    case Null => true
    case Int(i) => -TWO_63 <= i < TWO_63
    case Float(bits) => bits < TWO_64
    case Bool(b) => b < 256
    case Str(s) => |s| <= MAX_STRING_LEN && IsBytes(s)
    case Blob(s) => |s| <= MAX_STRING_LEN && IsBytes(s)
    case Array(items) =>
      depth < MAX_NEST_DEPTH && |items| <= MAX_NEST_ELEMS
      && forall i :: 0 <= i < |items| ==> Fits(items[i], depth + 1)
    case Object(fields) =>
      depth < MAX_NEST_DEPTH && |fields| <= MAX_NEST_ELEMS && FieldsFit(fields, depth + 1)
    case Unknown(tag) => 8 <= tag < 256
  }

  predicate FieldsFit(fields: seq<Field>, depth: nat)
    decreases fields
  {
    forall i :: 0 <= i < |fields| ==> FitsName(fields[i].name) && Fits(fields[i].value, depth)
  }

  predicate FitsRecord(r: Record) {
    && r.id < TWO_64 && r.createdAt < TWO_64 && r.updatedAt < TWO_64 && r.deleted < 256
    && |r.fields| <= MAX_COLUMNS && FieldsFit(r.fields, 0)
  }

  lemma NameReadsBack(n: string)
    requires FitsName(n)
    ensures CString(NameBytes(n)[..MAX_NAME_LEN - 1]) == n
  {
    CStringOfPadded(n, 0);
    assert n + Zeros(0) == n;
    assert NameBytes(n)[..MAX_NAME_LEN - 1] == n + Zeros(MAX_NAME_LEN - 1 - |n|);
    CStringOfPadded(n, MAX_NAME_LEN - 1 - |n|);
  }

  lemma Split(a: string, b: string)
    ensures (a + b)[..|a|] == a && (a + b)[|a|..] == b
  {
  }

  lemma Assoc(a: string, b: string, c: string)
    ensures (a + b) + c == a + (b + c)
  {
  }

  /** A number in front of the rest of a buffer. */
  lemma NumberInFront(n: nat, k: nat, rest: string)
    requires n < Pow256(k)
    ensures var s := Bytes(n, k) + rest;
      Number(s[..k]) == n && s[k..] == rest
  {
    NumberOfBytes(n, k);
    Split(Bytes(n, k), rest);
  }

  lemma TextReadsBack(prefix: string, t: string, pad: string, rest: string)
    requires |prefix| == 4 && Number(prefix) == |t| <= MAX_STRING_LEN
    ensures ReadText(prefix + t + pad + rest, |pad|) == Parsed(t, 4 + |t| + |pad|)
  {
    var s := prefix + t + pad + rest;
    assert s[..4] == prefix && s[4..4 + |t|] == t;
  }

  lemma ScalarReadsBack(v: Value, depth: nat, rest: string)
    requires Fits(v, depth) && !v.Array? && !v.Object? && !v.Str? && !v.Blob?
    ensures ReadPayload(Tag(v), Payload(v) + rest, depth) == Parsed(v, |Payload(v)|)
  {
    Powers();
    match v {
      case Int(i) => NumberInFront(Unsigned(i), 8, rest);
      case Float(bits) => NumberInFront(bits, 8, rest);
      case _ =>
    }
  }

  lemma StrReadsBack(t: string, depth: nat, rest: string)
    requires |t| <= MAX_STRING_LEN
    ensures ReadPayload(4, Payload(Str(t)) + rest, depth) == Parsed(Str(t), |Payload(Str(t))|)
    ensures ReadPayload(5, Payload(Blob(t)) + rest, depth) == Parsed(Blob(t), |Payload(Blob(t))|)
  {
    Powers();
    var prefix := Bytes(|t|, 4);
    NumberOfBytes(|t|, 4);
    TextReadsBack(prefix, t, Zeros(1), rest);
    TextReadsBack(prefix, t, "", rest);
    assert prefix + t + "" + rest == prefix + t + rest;
  }

  lemma CountReadsBack(n: nat, body: string, rest: string)
    requires n <= MAX_NEST_ELEMS
    ensures var s := Bytes(n, 4) + body + rest;
      HasCount(s) && Number(s[..4]) == n && s[4..] == body + rest
  {
    Powers();
    Assoc(Bytes(n, 4), body, rest);
    NumberInFront(n, 4, body + rest);
  }

  lemma PayloadOfArray(s: string, depth: nat, items: seq<Value>, used: nat)
    requires depth < MAX_NEST_DEPTH && HasCount(s)
    requires ReadItems(s[4..], Number(s[..4]), depth + 1) == Parsed(items, used)
    ensures ReadPayload(6, s, depth) == Parsed(Array(items), 4 + used)
  {
  }

  lemma PayloadOfObject(s: string, depth: nat, fields: seq<Field>, used: nat)
    requires depth < MAX_NEST_DEPTH && HasCount(s)
    requires ReadFields(s[4..], Number(s[..4]), depth + 1) == Parsed(fields, used)
    ensures ReadPayload(7, s, depth) == Parsed(Object(fields), 4 + used)
  {
  }

  lemma ValueOfPayload(s: string, depth: nat, v: Value, used: nat)
    requires |s| >= VALUE_HEADER_SIZE
    requires ReadPayload(s[0] as int, s[VALUE_HEADER_SIZE..], depth) == Parsed(v, used)
    ensures ReadValue(s, depth) == Parsed(v, VALUE_HEADER_SIZE + used)
  {
  }

  lemma ArrayReadsBack(items: seq<Value>, depth: nat, rest: string)
    requires |items| <= MAX_NEST_ELEMS && depth < MAX_NEST_DEPTH
    requires ReadItems(ItemsBytes(items) + rest, |items|, depth + 1) == Parsed(items, |ItemsBytes(items)|)
    ensures ReadPayload(6, Payload(Array(items)) + rest, depth) == Parsed(Array(items), |Payload(Array(items))|)
  {
    CountReadsBack(|items|, ItemsBytes(items), rest);
    PayloadOfArray(Payload(Array(items)) + rest, depth, items, |ItemsBytes(items)|);
  }

  lemma ObjectReadsBack(fields: seq<Field>, depth: nat, rest: string)
    requires |fields| <= MAX_NEST_ELEMS && depth < MAX_NEST_DEPTH
    requires ReadFields(FieldsBytes(fields) + rest, |fields|, depth + 1) == Parsed(fields, |FieldsBytes(fields)|)
    ensures ReadPayload(7, Payload(Object(fields)) + rest, depth) == Parsed(Object(fields), |Payload(Object(fields))|)
  {
    CountReadsBack(|fields|, FieldsBytes(fields), rest);
    PayloadOfObject(Payload(Object(fields)) + rest, depth, fields, |FieldsBytes(fields)|);
  }

  lemma {:induction false} PayloadReadsBack(v: Value, depth: nat, rest: string)
    requires Fits(v, depth)
    ensures ReadPayload(Tag(v), Payload(v) + rest, depth) == Parsed(v, |Payload(v)|)
    decreases v, 0
  {
    match v {
      case Str(t) => StrReadsBack(t, depth, rest);
      case Blob(t) => StrReadsBack(t, depth, rest);
      case Array(items) =>
        ItemsReadBack(items, depth + 1, rest);
        ArrayReadsBack(items, depth, rest);
      case Object(fields) =>
        FieldsReadBack(fields, depth + 1, rest);
        ObjectReadsBack(fields, depth, rest);
      case _ => ScalarReadsBack(v, depth, rest);
    }
  }

  lemma {:induction false} ValueReadsBack(v: Value, depth: nat, rest: string)
    requires Fits(v, depth)
    ensures ReadValue(ValueBytes(v) + rest, depth) == Parsed(v, |ValueBytes(v)|)
    decreases v, 1
  {
    PayloadReadsBack(v, depth, rest);
    HeaderInFront(Tag(v), Payload(v), rest);
    ValueOfPayload(ValueBytes(v) + rest, depth, v, |Payload(v)|);
  }

  lemma HeaderInFront(tag: nat, payload: string, rest: string)
    requires tag < 256
    ensures var s := Byte(tag) + Zeros(7) + payload + rest;
      s[0] as int == tag && s[VALUE_HEADER_SIZE..] == payload + rest
  {
  }

  lemma {:induction false} ItemsReadBack(items: seq<Value>, depth: nat, rest: string)
    requires forall i :: 0 <= i < |items| ==> Fits(items[i], depth)
    ensures ReadItems(ItemsBytes(items) + rest, |items|, depth) == Parsed(items, |ItemsBytes(items)|)
    decreases items
  {
    if items != [] {
      var later := ItemsBytes(items[1..]);
      ValueReadsBack(items[0], depth, later + rest);
      ItemsReadBack(items[1..], depth, rest);
      ItemThenRest(items[0], ValueBytes(items[0]), items[1..], later, rest, depth);
      assert items == [items[0]] + items[1..];
    }
  }

  lemma ItemThenRest(v: Value, first: string, vs: seq<Value>, later: string, rest: string, depth: nat)
    requires ReadValue(first + (later + rest), depth) == Parsed(v, |first|)
    requires ReadItems(later + rest, |vs|, depth) == Parsed(vs, |later|)
    ensures ReadItems(first + later + rest, |vs| + 1, depth) == Parsed([v] + vs, |first + later|)
  {
    Assoc(first, later, rest);
    Split(first, later + rest);
    ItemsOfParts(first + later + rest, |vs| + 1, depth, v, |first|, vs, |later|);
  }

  lemma ItemsOfParts(s: string, n: nat, depth: nat, v: Value, k: nat, later: seq<Value>, used: nat)
    requires n > 0 && |s| >= k && ReadValue(s, depth) == Parsed(v, k)
    requires ReadItems(s[k..], n - 1, depth) == Parsed(later, used)
    ensures ReadItems(s, n, depth) == Parsed([v] + later, k + used)
  {
  }

  lemma {:induction false} FieldsReadBack(fields: seq<Field>, depth: nat, rest: string)
    requires FieldsFit(fields, depth)
    ensures ReadFields(FieldsBytes(fields) + rest, |fields|, depth) == Parsed(fields, |FieldsBytes(fields)|)
    decreases fields
  {
    if fields != [] {
      var f, later := fields[0], FieldsBytes(fields[1..]);
      NameReadsBack(f.name);
      ValueReadsBack(f.value, depth, later + rest);
      FieldsReadBack(fields[1..], depth, rest);
      FieldThenRest(NameBytes(f.name), f, ValueBytes(f.value), fields[1..], later, rest, depth);
      assert fields == [f] + fields[1..];
    }
  }

  lemma {:induction false} FieldThenRest(name: string, f: Field, first: string, fs: seq<Field>, later: string,
                                         rest: string, depth: nat)
    requires |name| == MAX_NAME_LEN && CString(name[..MAX_NAME_LEN - 1]) == f.name
    requires ReadValue(first + (later + rest), depth) == Parsed(f.value, |first|)
    requires ReadFields(later + rest, |fs|, depth) == Parsed(fs, |later|)
    ensures ReadFields(name + first + later + rest, |fs| + 1, depth) == Parsed([f] + fs, |name + first + later|)
  {
    var s := name + first + later + rest;
    FieldInFront(s, name, first, later, rest);
    FieldsOfParts(s, |fs| + 1, depth, f, |first|, fs, |later|);
  }

  lemma FieldsOfParts(s: string, n: nat, depth: nat, f: Field, k: nat, later: seq<Field>, used: nat)
    requires n > 0 && |s| >= MAX_NAME_LEN + k && CString(s[..MAX_NAME_LEN - 1]) == f.name
    requires ReadValue(s[MAX_NAME_LEN..], depth) == Parsed(f.value, k)
    requires ReadFields(s[MAX_NAME_LEN + k..], n - 1, depth) == Parsed(later, used)
    ensures ReadFields(s, n, depth) == Parsed([f] + later, MAX_NAME_LEN + k + used)
  {
  }

  lemma FieldInFront(s: string, name: string, first: string, later: string, rest: string)
    requires |name| == MAX_NAME_LEN && s == name + first + later + rest
    ensures s[..MAX_NAME_LEN - 1] == name[..MAX_NAME_LEN - 1]
    ensures s[MAX_NAME_LEN..] == first + (later + rest)
    ensures s[MAX_NAME_LEN + |first|..] == later + rest
  {
  }

  lemma FixedReadsBack(r: Record, f: string)
    requires FitsRecord(r) && f == Fixed(r)
    ensures Number(f[..8]) == r.id && Number(f[8..16]) == r.createdAt && Number(f[16..24]) == r.updatedAt
    ensures Number(f[24..28]) == |r.fields| && f[28] as int == r.deleted
  {
    Powers();
    NumberOfBytes(r.id, 8);
    NumberOfBytes(r.createdAt, 8);
    NumberOfBytes(r.updatedAt, 8);
    NumberOfBytes(|r.fields|, 4);
    assert f[..8] == Bytes(r.id, 8) && f[8..16] == Bytes(r.createdAt, 8);
    assert f[16..24] == Bytes(r.updatedAt, 8) && f[24..28] == Bytes(|r.fields|, 4);
  }

  lemma FixedInFront(s: string, f: string, rest: string)
    requires |f| == RECORD_FIXED_SIZE && s == f + rest
    ensures s[..8] == f[..8] && s[8..16] == f[8..16] && s[16..24] == f[16..24] && s[24..28] == f[24..28]
    ensures s[28] == f[28] && s[RECORD_FIXED_SIZE..] == rest
  {
  }

  /** A record within the limits is read back as it was, taking exactly its own bytes. */
  lemma RecordReadsBack(r: Record, rest: string)
    requires FitsRecord(r)
    ensures Decode(Encode(r) + rest) == Parsed(r, SerialSize(r))
  {
    var f, body := Fixed(r), FieldsBytes(r.fields);
    FieldsHaveSize(r.fields);
    FieldsReadBack(r.fields, 0, rest);
    PartsReadBack(r, f, body + rest, |body|);
    assert Encode(r) + rest == f + (body + rest) by {
      Assoc(f, body, rest);
    }
  }

  lemma PartsReadBack(r: Record, f: string, rest: string, used: nat)
    requires FitsRecord(r) && f == Fixed(r) && ReadFields(rest, |r.fields|, 0) == Parsed(r.fields, used)
    ensures Decode(f + rest) == Parsed(r, RECORD_FIXED_SIZE + used)
  {
    FixedReadsBack(r, f);
    FixedInFront(f + rest, f, rest);
    RecordOfParts(f + rest, r, used);
  }

  lemma RecordOfParts(s: string, r: Record, used: nat)
    requires |s| >= RECORD_FIXED_SIZE && |r.fields| <= MAX_COLUMNS
    requires Number(s[..8]) == r.id && Number(s[8..16]) == r.createdAt && Number(s[16..24]) == r.updatedAt
    requires Number(s[24..28]) == |r.fields| && s[28] as int == r.deleted
    requires ReadFields(s[RECORD_FIXED_SIZE..], |r.fields|, 0) == Parsed(r.fields, used)
    ensures Decode(s) == Parsed(r, RECORD_FIXED_SIZE + used)
  {
  }

  // ---------------------------------------------------------------- truncation

  lemma Prefix(a: string, b: string, k: nat)
    requires k <= |a| + |b|
    ensures (a + b)[..k] == if k <= |a| then a[..k] else a + b[..k - |a|]
  {
  }

  lemma TruncatedText(prefix: string, t: string, pad: string, k: nat)
    requires |prefix| == 4 && Number(prefix) == |t| <= MAX_STRING_LEN && k < |prefix + t + pad|
    ensures ReadText((prefix + t + pad)[..k], |pad|) == Corrupt
  {
    var s := (prefix + t + pad)[..k];
    if k >= 4 {
      assert s[..4] == prefix;
    }
  }

  lemma TruncatedStr(t: string, depth: nat, k: nat)
    requires |t| <= MAX_STRING_LEN
    ensures k < |Payload(Str(t))| ==> ReadPayload(4, Payload(Str(t))[..k], depth) == Corrupt
    ensures k < |Payload(Blob(t))| ==> ReadPayload(5, Payload(Blob(t))[..k], depth) == Corrupt
  {
    Powers();
    var prefix := Bytes(|t|, 4);
    NumberOfBytes(|t|, 4);
    if k < |Payload(Str(t))| {
      TruncatedText(prefix, t, Zeros(1), k);
    }
    if k < |Payload(Blob(t))| {
      assert prefix + t + "" == prefix + t;
      TruncatedText(prefix, t, "", k);
    }
  }

  /** The count in front of a truncated array or object, if it is there at all. */
  lemma TruncatedCount(n: nat, body: string, k: nat)
    requires n <= MAX_NEST_ELEMS && k < 4 + |body|
    ensures var s := (Bytes(n, 4) + body)[..k];
      if k < 4 then !HasCount(s) else HasCount(s) && Number(s[..4]) == n && s[4..] == body[..k - 4]
  {
    Powers();
    Prefix(Bytes(n, 4), body, k);
    if k >= 4 {
      NumberInFront(n, 4, body[..k - 4]);
    }
  }

  lemma {:induction false} TruncatedPayload(v: Value, depth: nat, k: nat)
    requires Fits(v, depth) && k < |Payload(v)|
    ensures ReadPayload(Tag(v), Payload(v)[..k], depth) == Corrupt
    decreases v, 0
  {
    match v {
      case Str(t) => TruncatedStr(t, depth, k);
      case Blob(t) => TruncatedStr(t, depth, k);
      case Array(items) =>
        TruncatedCount(|items|, ItemsBytes(items), k);
        if k >= 4 {
          TruncatedItems(items, depth + 1, k - 4);
        }
      case Object(fields) =>
        TruncatedCount(|fields|, FieldsBytes(fields), k);
        if k >= 4 {
          TruncatedFields(fields, depth + 1, k - 4);
        }
      case _ =>
    }
  }

  lemma {:induction false} TruncatedValue(v: Value, depth: nat, k: nat)
    requires Fits(v, depth) && k < |ValueBytes(v)|
    ensures ReadValue(ValueBytes(v)[..k], depth) == Corrupt
    decreases v, 1
  {
    var header := Byte(Tag(v)) + Zeros(7);
    Prefix(header, Payload(v), k);
    if k >= VALUE_HEADER_SIZE {
      Split(header, Payload(v)[..k - VALUE_HEADER_SIZE]);
      assert ValueBytes(v)[..k][0] == header[0];
      TruncatedPayload(v, depth, k - VALUE_HEADER_SIZE);
    }
  }

  lemma {:induction false} TruncatedItems(items: seq<Value>, depth: nat, k: nat)
    requires forall i :: 0 <= i < |items| ==> Fits(items[i], depth)
    requires k < |ItemsBytes(items)|
    ensures ReadItems(ItemsBytes(items)[..k], |items|, depth) == Corrupt
    decreases items
  {
    var first, later := ValueBytes(items[0]), ItemsBytes(items[1..]);
    Prefix(first, later, k);
    if k < |first| {
      TruncatedValue(items[0], depth, k);
    } else {
      var cut := later[..k - |first|];
      ValueReadsBack(items[0], depth, cut);
      Split(first, cut);
      assert first + later[..0] == first;
      TruncatedItems(items[1..], depth, k - |first|);
    }
  }

  lemma {:induction false} TruncatedFields(fields: seq<Field>, depth: nat, k: nat)
    requires FieldsFit(fields, depth)
    requires k < |FieldsBytes(fields)|
    ensures ReadFields(FieldsBytes(fields)[..k], |fields|, depth) == Corrupt
    decreases fields
  {
    var f, later := fields[0], FieldsBytes(fields[1..]);
    var first := ValueBytes(f.value);
    if k < MAX_NAME_LEN + |first| {
      TruncatedField(NameBytes(f.name), f.value, later, |fields|, depth, k);
    } else {
      var cut := k - MAX_NAME_LEN - |first|;
      ValueReadsBack(f.value, depth, later[..cut]);
      TruncatedFields(fields[1..], depth, cut);
      CutField(FieldsBytes(fields)[..k], NameBytes(f.name), first, later, k);
      CorruptField(FieldsBytes(fields)[..k], |fields|, depth, |first|);
    }
  }

  lemma {:induction false} TruncatedField(name: string, v: Value, later: string, n: nat, depth: nat, k: nat)
    requires Fits(v, depth) && n > 0 && |name| == MAX_NAME_LEN && k < MAX_NAME_LEN + |ValueBytes(v)|
    ensures ReadFields((name + ValueBytes(v) + later)[..k], n, depth) == Corrupt
    decreases v, 2
  {
    var s := (name + ValueBytes(v) + later)[..k];
    if k >= MAX_NAME_LEN {
      CutField(s, name, ValueBytes(v), later, k);
      TruncatedValue(v, depth, k - MAX_NAME_LEN);
      CorruptField(s, n, depth, 0);
    }
  }

  lemma CorruptField(s: string, n: nat, depth: nat, k: nat)
    requires n > 0 && |s| >= MAX_NAME_LEN + k
    requires var p := ReadValue(s[MAX_NAME_LEN..], depth);
      p == Corrupt || (p.used == k && ReadFields(s[MAX_NAME_LEN + k..], n - 1, depth) == Corrupt)
    ensures ReadFields(s, n, depth) == Corrupt
  {
  }

  lemma CutField(s: string, name: string, first: string, later: string, k: nat)
    requires |name| == MAX_NAME_LEN && k < |name + first + later| && s == (name + first + later)[..k]
    ensures MAX_NAME_LEN <= k < MAX_NAME_LEN + |first| ==> s[MAX_NAME_LEN..] == first[..k - MAX_NAME_LEN]
    ensures k >= MAX_NAME_LEN + |first| ==>
      s[MAX_NAME_LEN..] == first + later[..k - MAX_NAME_LEN - |first|]
      && s[MAX_NAME_LEN + |first|..] == later[..k - MAX_NAME_LEN - |first|]
  {
  }

  /** Every proper prefix of an encoded record is rejected. */
  lemma TruncatedRecord(r: Record, k: nat)
    requires FitsRecord(r) && k < |Encode(r)|
    ensures Decode(Encode(r)[..k]) == Corrupt
  {
    Prefix(Fixed(r), FieldsBytes(r.fields), k);
    if k >= RECORD_FIXED_SIZE {
      var cut := FieldsBytes(r.fields)[..k - RECORD_FIXED_SIZE];
      FixedReadsBack(r, Fixed(r));
      FixedInFront(Encode(r)[..k], Fixed(r), cut);
      TruncatedFields(r.fields, 0, k - RECORD_FIXED_SIZE);
    }
  }

  // ---------------------------------------------------------------- the limits are exact

  lemma BytesSlice(s: string, i: nat, j: nat)
    requires IsBytes(s) && i <= j <= |s|
    ensures IsBytes(s[i..j]) && IsBytes(s[i..])
    ensures Number(s[i..j]) < Pow256(j - i)
  {
    NumberBelow(s[i..j]);
  }

  /** Whatever decoding yields is within the limits. */
  lemma {:induction false} DecodedPayloadFits(tag: nat, s: string, depth: nat)
    requires tag < 256 && IsBytes(s)
    ensures var p := ReadPayload(tag, s, depth); p.Parsed? ==> Fits(p.value, depth)
    decreases MAX_NEST_DEPTH + 1 - depth, 1, 0
  {
    Powers();
    if |s| >= 8 {
      BytesSlice(s, 0, 8);
    }
    if |s| >= 4 {
      BytesSlice(s, 4, |s|);
    }
    if tag == 4 || tag == 5 {
      DecodedTextFits(s, 1);
      DecodedTextFits(s, 0);
    } else if tag == 6 && depth < MAX_NEST_DEPTH && HasCount(s) {
      DecodedItemsFit(s[4..], Number(s[..4]), depth + 1);
      var p := ReadItems(s[4..], Number(s[..4]), depth + 1);
      assert p.Parsed? ==> Fits(Array(p.value), depth);
    } else if tag == 7 && depth < MAX_NEST_DEPTH && HasCount(s) {
      DecodedFieldsFit(s[4..], Number(s[..4]), depth + 1);
      var p := ReadFields(s[4..], Number(s[..4]), depth + 1);
      assert p.Parsed? ==> Fits(Object(p.value), depth);
    }
  }

  lemma DecodedTextFits(s: string, extra: nat)
    requires IsBytes(s)
    ensures var p := ReadText(s, extra); p.Parsed? ==> |p.value| <= MAX_STRING_LEN && IsBytes(p.value)
  {
  }

  lemma {:induction false} DecodedValueFits(s: string, depth: nat)
    requires IsBytes(s)
    ensures var p := ReadValue(s, depth); p.Parsed? ==> Fits(p.value, depth)
    decreases MAX_NEST_DEPTH + 1 - depth, 2, 0
  {
    if |s| >= VALUE_HEADER_SIZE {
      DecodedPayloadFits(s[0] as int, s[VALUE_HEADER_SIZE..], depth);
    }
  }

  lemma {:induction false} DecodedItemsFit(s: string, n: nat, depth: nat)
    requires IsBytes(s)
    ensures ItemsFitIfParsed(ReadItems(s, n, depth), depth)
    decreases MAX_NEST_DEPTH + 1 - depth, 3, n
  {
    if n > 0 {
      var v := ReadValue(s, depth);
      DecodedValueFits(s, depth);
      if v.Parsed? {
        BytesTail(s, v.used);
        DecodedItemsFit(s[v.used..], n - 1, depth);
        var later := ReadItems(s[v.used..], n - 1, depth);
        if later.Parsed? {
          ItemsOfParts(s, n, depth, v.value, v.used, later.value, later.used);
        }
      }
    }
  }

  predicate ItemsFitIfParsed(p: Parsed<seq<Value>>, depth: nat) {
    p.Parsed? ==> forall i :: 0 <= i < |p.value| ==> Fits(p.value[i], depth)
  }

  lemma {:induction false} DecodedFieldsFit(s: string, n: nat, depth: nat)
    requires IsBytes(s)
    ensures FieldsFitIfParsed(ReadFields(s, n, depth), depth)
    decreases MAX_NEST_DEPTH + 1 - depth, 3, n
  {
    if n > 0 && |s| >= MAX_NAME_LEN {
      var v := ReadValue(s[MAX_NAME_LEN..], depth);
      BytesTail(s, MAX_NAME_LEN);
      DecodedValueFits(s[MAX_NAME_LEN..], depth);
      if v.Parsed? {
        BytesTail(s, MAX_NAME_LEN + v.used);
        DecodedFieldsFit(s[MAX_NAME_LEN + v.used..], n - 1, depth);
        DecodedFieldFits(s, n, depth, v.value, v.used);
      } else {
        CorruptField(s, n, depth, 0);
      }
    }
  }

  lemma BytesTail(s: string, k: nat)
    requires IsBytes(s) && k <= |s|
    ensures IsBytes(s[k..])
  {
  }

  lemma DecodedFieldFits(s: string, n: nat, depth: nat, v: Value, k: nat)
    requires IsBytes(s) && n > 0 && |s| >= MAX_NAME_LEN + k
    requires ReadValue(s[MAX_NAME_LEN..], depth) == Parsed(v, k) && Fits(v, depth)
    requires FieldsFitIfParsed(ReadFields(s[MAX_NAME_LEN + k..], n - 1, depth), depth)
    ensures FieldsFitIfParsed(ReadFields(s, n, depth), depth)
  {
    var later := ReadFields(s[MAX_NAME_LEN + k..], n - 1, depth);
    DecodedNameFits(s);
    if later.Parsed? {
      var f := Field(CString(s[..MAX_NAME_LEN - 1]), v);
      FieldsOfParts(s, n, depth, f, k, later.value, later.used);
      FieldsFitCons(f, later.value, depth);
    } else {
      CorruptField(s, n, depth, k);
    }
  }

  predicate FieldsFitIfParsed(p: Parsed<seq<Field>>, depth: nat) {
    p.Parsed? ==> FieldsFit(p.value, depth)
  }

  lemma FieldsFitCons(f: Field, later: seq<Field>, depth: nat)
    requires FitsName(f.name) && Fits(f.value, depth) && FieldsFit(later, depth)
    ensures FieldsFit([f] + later, depth)
  {
  }

  lemma DecodedNameFits(s: string)
    requires IsBytes(s) && |s| >= MAX_NAME_LEN
    ensures FitsName(CString(s[..MAX_NAME_LEN - 1]))
  {
  }

  lemma DecodedRecordFits(s: string)
    requires IsBytes(s)
    ensures var p := Decode(s); p.Parsed? ==> FitsRecord(p.value)
  {
    if |s| >= RECORD_FIXED_SIZE && Number(s[24..28]) <= MAX_COLUMNS {
      DecodedFixedFits(s);
      var n := Number(s[24..28]);
      var fields := ReadFields(s[RECORD_FIXED_SIZE..], n, 0);
      DecodedFieldsFit(s[RECORD_FIXED_SIZE..], n, 0);
      if fields.Parsed? {
        RecordOfParts(s, Record(Number(s[..8]), Number(s[8..16]), Number(s[16..24]), s[28] as int, fields.value),
                      fields.used);
      }
    }
  }

  lemma DecodedFixedFits(s: string)
    requires IsBytes(s) && |s| >= RECORD_FIXED_SIZE
    ensures Number(s[..8]) < TWO_64 && Number(s[8..16]) < TWO_64 && Number(s[16..24]) < TWO_64
  {
    Powers();
    BytesSlice(s, 0, 8);
    BytesSlice(s, 8, 16);
    BytesSlice(s, 16, 24);
  }

  /** Every string, blob and name in the value is made of bytes, as C strings are. */
  predicate ByteStrings(v: Value)
    decreases v
  {
    match v
    case Str(s) => IsBytes(s)
    case Blob(s) => IsBytes(s)
    case Array(items) => forall i :: 0 <= i < |items| ==> ByteStrings(items[i])
    case Object(fields) => ByteFields(fields)
    case _ => true
  }

  predicate ByteFields(fields: seq<Field>)
    decreases fields
  {
    forall i :: 0 <= i < |fields| ==> IsBytes(fields[i].name) && ByteStrings(fields[i].value)
  }

  lemma BytesConcat(a: string, b: string)
    requires IsBytes(a) && IsBytes(b)
    ensures IsBytes(a + b)
  {
  }

  lemma {:induction false} EncodedPayloadIsBytes(v: Value)
    requires ByteStrings(v)
    ensures IsBytes(Payload(v)) && IsBytes(ValueBytes(v))
    decreases v
  {
    match v {
      case Int(i) => NumberOfBytes(Unsigned(i), 8);
      case Float(bits) => NumberOfBytes(bits, 8);
      case Str(s) => NumberOfBytes(|s|, 4);
      case Blob(s) => NumberOfBytes(|s|, 4);
      case Array(items) =>
        NumberOfBytes(|items|, 4);
        EncodedItemsAreBytes(items);
        BytesConcat(Bytes(|items|, 4), ItemsBytes(items));
      case Object(fields) =>
        NumberOfBytes(|fields|, 4);
        EncodedFieldsAreBytes(fields);
        BytesConcat(Bytes(|fields|, 4), FieldsBytes(fields));
      case _ =>
    }
    BytesConcat(Byte(Tag(v)) + Zeros(7), Payload(v));
  }

  lemma {:induction false} EncodedItemsAreBytes(items: seq<Value>)
    requires forall i :: 0 <= i < |items| ==> ByteStrings(items[i])
    ensures IsBytes(ItemsBytes(items))
    decreases items
  {
    if items != [] {
      EncodedPayloadIsBytes(items[0]);
      EncodedItemsAreBytes(items[1..]);
      BytesConcat(ValueBytes(items[0]), ItemsBytes(items[1..]));
    }
  }

  lemma {:induction false} EncodedFieldsAreBytes(fields: seq<Field>)
    requires ByteFields(fields)
    ensures IsBytes(FieldsBytes(fields))
    decreases fields
  {
    if fields != [] {
      EncodedPayloadIsBytes(fields[0].value);
      EncodedFieldsAreBytes(fields[1..]);
      var name := NameBytes(fields[0].name);
      assert IsBytes(name);
      BytesConcat(name, ValueBytes(fields[0].value));
      BytesConcat(name + ValueBytes(fields[0].value), FieldsBytes(fields[1..]));
    }
  }

  /** A record is read back as it was exactly when it is within the limits. */
  lemma RoundTrip(r: Record)
    requires ByteFields(r.fields)
    ensures Decode(Encode(r)) == Parsed(r, SerialSize(r)) <==> FitsRecord(r)
  {
    EncodeIsBytes(r);
    DecodedRecordFits(Encode(r));
    if FitsRecord(r) {
      RecordReadsBack(r, "");
      assert Encode(r) + "" == Encode(r);
    }
  }

  lemma FixedIsBytes(r: Record)
    ensures IsBytes(Fixed(r))
  {
    NumberOfBytes(r.id, 8);
    NumberOfBytes(r.createdAt, 8);
    NumberOfBytes(r.updatedAt, 8);
    NumberOfBytes(|r.fields|, 4);
  }

  // ---------------------------------------------------------------- frames

  /** A record in a file: its size in four bytes, then the record. */
  function Frame(r: Record): string {
    Bytes(|Encode(r)|, 4) + Encode(r)
  }

  function Frames(rs: seq<Record>): string {
    if rs == [] then "" else Frame(rs[0]) + Frames(rs[1..])
  }

  function ReadFrame(s: string): (p: Parsed<Record>)
    ensures p.Parsed? ==> 0 < p.used <= |s|
  {
    if |s| < 4 then Corrupt else
    var size := Number(s[..4]);
    if size == 0 || size > MAX_RECORD_SERIAL_SIZE || |s| - 4 < size then Corrupt else
    match Decode(s[4..4 + size])
    case Corrupt => Corrupt
    case Parsed(r, _) => Parsed(r, 4 + size)
  }

  /** What a scan of the frames meets: it ends at the first one it cannot read. */
  function ReadAll(s: string): seq<Record>
    decreases |s|
  {
    match ReadFrame(s)
    case Corrupt => []
    case Parsed(r, used) => [r] + ReadAll(s[used..])
  }

  predicate FitsFrame(r: Record) {
    FitsRecord(r) && SerialSize(r) <= MAX_RECORD_SERIAL_SIZE
  }

  lemma FrameReadsBack(r: Record, rest: string)
    requires FitsFrame(r)
    ensures ReadFrame(Frame(r) + rest) == Parsed(r, |Frame(r)|) && |Frame(r)| == 4 + SerialSize(r)
    ensures (Frame(r) + rest)[|Frame(r)|..] == rest
  {
    EncodeHasSize(r);
    RecordReadsBack(r, "");
    assert Encode(r) + "" == Encode(r);
    FramedReadsBack(Encode(r), r, rest);
  }

  lemma {:induction false} FramedReadsBack(e: string, r: Record, rest: string)
    requires 0 < |e| <= MAX_RECORD_SERIAL_SIZE && Decode(e).Parsed? && Decode(e).value == r
    ensures var s := Bytes(|e|, 4) + e + rest;
      ReadFrame(s) == Parsed(r, 4 + |e|) && s[4 + |e|..] == rest
  {
    var s := Bytes(|e|, 4) + e + rest;
    Powers();
    NumberOfBytes(|e|, 4);
    assert s[..4] == Bytes(|e|, 4) && s[4..4 + |e|] == e;
  }

  /** Reading a concatenation of frames gives back the records, then goes on with what follows. */
  lemma {:induction false} FramesReadBack(rs: seq<Record>, rest: string)
    requires forall i :: 0 <= i < |rs| ==> FitsFrame(rs[i])
    ensures ReadAll(Frames(rs) + rest) == rs + ReadAll(rest)
  {
    if rs == [] {
      assert Frames(rs) + rest == rest;
    } else {
      FrameReadsBack(rs[0], Frames(rs[1..]) + rest);
      FramesReadBack(rs[1..], rest);
      NextFrame(Frame(rs[0]), Frames(rs[1..]), rest, rs[0]);
      Prepend(rs[0], rs[1..], ReadAll(rest));
      assert rs == [rs[0]] + rs[1..];
    }
  }

  lemma {:induction false} NextFrame(f: string, fs: string, rest: string, r: Record)
    requires ReadFrame(f + (fs + rest)) == Parsed(r, |f|) && (f + (fs + rest))[|f|..] == fs + rest
    ensures ReadAll(f + fs + rest) == [r] + ReadAll(fs + rest)
  {
    Assoc(f, fs, rest);
  }

  lemma Prepend(r: Record, later: seq<Record>, last: seq<Record>)
    ensures [r] + (later + last) == ([r] + later) + last
  {
  }

  lemma EncodeIsBytes(r: Record)
    requires ByteFields(r.fields)
    ensures IsBytes(Encode(r))
  {
    EncodedFieldsAreBytes(r.fields);
    FixedIsBytes(r);
    BytesConcat(Fixed(r), FieldsBytes(r.fields));
  }

  /** A record that a read gives back from its own frame fits one. */
  lemma ReadableFits(r: Record, rest: string)
    requires ByteFields(r.fields) && SerialSize(r) < 0x1_0000_0000
    ensures var p := ReadFrame(Frame(r) + rest);
      p.Parsed? && p.value == r ==> FitsFrame(r) && (Frame(r) + rest)[p.used..] == rest
  {
    hide Encode, Decode, FitsRecord, SerialSize, ByteFields;
    var e := Encode(r);
    EncodeHasSize(r);
    EncodeIsBytes(r);
    DecodedRecordFits(e);
    Assoc(Bytes(|e|, 4), e, rest);
    Powers();
    NumberInFront(|e|, 4, e + rest);
    assert (Frame(r) + rest)[4..4 + |e|] == e;
  }

  /** Reading frames back gives the records exactly when each one fits a frame. */
  lemma {:induction false} FramesReadBackExactly(rs: seq<Record>)
    requires forall i :: 0 <= i < |rs| ==> ByteFields(rs[i].fields) && SerialSize(rs[i]) < 0x1_0000_0000
    ensures ReadAll(Frames(rs)) == rs <==> forall i :: 0 <= i < |rs| ==> FitsFrame(rs[i])
  {
    hide Frame, ReadFrame, FitsFrame, ByteFields, SerialSize;
    if rs != [] {
      FramesReadBackExactly(rs[1..]);
      ReadableFits(rs[0], Frames(rs[1..]));
      if FitsFrame(rs[0]) {
        FrameReadsBack(rs[0], Frames(rs[1..]));
      }
      assert rs == [rs[0]] + rs[1..];
      assert forall i :: 0 < i < |rs| ==> rs[i] == rs[1..][i - 1];
    }
  }

  /** A record over the size cap is written, but neither it nor anything behind it is ever read again. */
  lemma OversizedHidesTheRest(rs: seq<Record>, big: Record, later: seq<Record>)
    requires forall i :: 0 <= i < |rs| ==> FitsFrame(rs[i])
    requires MAX_RECORD_SERIAL_SIZE < SerialSize(big) < 0x1_0000_0000
    ensures ReadAll(Frames(rs) + (Frame(big) + Frames(later))) == rs
  {
    var rest := Frame(big) + Frames(later);
    FramesReadBack(rs, rest);
    EncodeHasSize(big);
    Powers();
    NumberInFront(|Encode(big)|, 4, Encode(big) + Frames(later));
    assert rest == Bytes(|Encode(big)|, 4) + (Encode(big) + Frames(later)) by {
      Assoc(Bytes(|Encode(big)|, 4), Encode(big), Frames(later));
    }
    assert ReadAll(rest) == [];
  }

  // ---------------------------------------------------------------- the cursors

  /** `s` has been written at `p`, and nothing else has changed. */
  ghost predicate Wrote(was: string, now: string, p: nat, s: string) {
    p + |s| <= |was| && now == was[..p] + s + was[p + |s|..]
  }

  lemma WroteTwice(a: string, b: string, c: string, p: nat, s: string, t: string)
    requires Wrote(a, b, p, s) && Wrote(b, c, p + |s|, t)
    ensures Wrote(a, c, p, s + t)
  {
    assert b[..p + |s|] == a[..p] + s;
    assert b[p + |s| + |t|..] == a[p + |s| + |t|..];
    assert a[..p] + s + t == a[..p] + (s + t);
  }

  lemma WroteNothing(a: string, p: nat)
    requires p <= |a|
    ensures Wrote(a, a, p, "")
  {
  }

  /** Writes bytes at the cursor and advances it. */
  method Put(buf: array<char>, p: nat, s: string) returns (q: nat)
    requires p + |s| <= buf.Length
    modifies buf
    ensures q == p + |s| && Wrote(old(buf[..]), buf[..], p, s)
  {
    var i := 0;
    while i < |s|
      invariant 0 <= i <= |s|
      invariant forall k :: 0 <= k < buf.Length ==> buf[k] == if p <= k < p + i then s[k - p] else old(buf[k])
    {
      buf[p + i] := s[i];
      i := i + 1;
    }
    q := p + |s|;
  }

  method PutPayload(buf: array<char>, p: nat, v: Value) returns (q: nat)
    requires p + PayloadSize(v) <= buf.Length
    modifies buf
    ensures q == p + PayloadSize(v) && Wrote(old(buf[..]), buf[..], p, Payload(v))
    decreases v, 0
  {
    PayloadHasSize(v);
    match v {
      case Int(i) => q := Put(buf, p, Bytes(Unsigned(i), 8));
      case Float(bits) => q := Put(buf, p, Bytes(bits, 8));
      case Bool(b) => q := Put(buf, p, Byte(b));
      case Str(s) => q := Put(buf, p, Bytes(|s|, 4) + s + Zeros(1));
      case Blob(s) => q := Put(buf, p, Bytes(|s|, 4) + s);
      case Array(items) =>
        q := Put(buf, p, Bytes(|items|, 4));
        ghost var counted := buf[..];
        q := PutItems(buf, q, items);
        WroteTwice(old(buf[..]), counted, buf[..], p, Bytes(|items|, 4), ItemsBytes(items));
      case Object(fields) =>
        q := Put(buf, p, Bytes(|fields|, 4));
        ghost var counted := buf[..];
        q := PutFields(buf, q, fields);
        WroteTwice(old(buf[..]), counted, buf[..], p, Bytes(|fields|, 4), FieldsBytes(fields));
      case _ =>
        q := p;
        WroteNothing(buf[..], p);
    }
  }

  method PutValue(buf: array<char>, p: nat, v: Value) returns (q: nat)
    requires p + VALUE_HEADER_SIZE + PayloadSize(v) <= buf.Length
    modifies buf
    ensures q == p + VALUE_HEADER_SIZE + PayloadSize(v) && Wrote(old(buf[..]), buf[..], p, ValueBytes(v))
    decreases v, 1
  {
    ghost var header := Byte(Tag(v)) + Zeros(7);
    q := Put(buf, p, Byte(Tag(v)) + Zeros(7));
    ghost var headed := buf[..];
    q := PutPayload(buf, q, v);
    WroteTwice(old(buf[..]), headed, buf[..], p, header, Payload(v));
  }

  method PutItems(buf: array<char>, p: nat, items: seq<Value>) returns (q: nat)
    requires p + ItemsSize(items) <= buf.Length
    modifies buf
    ensures q == p + ItemsSize(items) && Wrote(old(buf[..]), buf[..], p, ItemsBytes(items))
    decreases items, 2
  {
    q := p;
    var i := 0;
    ghost var done := "";
    WroteNothing(buf[..], p);
    assert items[0..] == items;
    while i < |items|
      invariant 0 <= i <= |items| && q == p + |done|
      invariant q + ItemsSize(items[i..]) == p + ItemsSize(items)
      invariant done + ItemsBytes(items[i..]) == ItemsBytes(items)
      invariant Wrote(old(buf[..]), buf[..], p, done)
    {
      ghost var before := buf[..];
      PayloadHasSize(items[i]);
      assert items[i..][1..] == items[i + 1..];
      q := PutValue(buf, q, items[i]);
      WroteTwice(old(buf[..]), before, buf[..], p, done, ValueBytes(items[i]));
      Assoc(done, ValueBytes(items[i]), ItemsBytes(items[i + 1..]));
      done := done + ValueBytes(items[i]);
      i := i + 1;
    }
    assert done + "" == done;
  }

  /** A field name and its value. */
  method PutField(buf: array<char>, p: nat, f: Field) returns (q: nat)
    requires p + FIELD_HEADER_SIZE + PayloadSize(f.value) <= buf.Length
    modifies buf
    ensures q == p + FIELD_HEADER_SIZE + PayloadSize(f.value)
    ensures Wrote(old(buf[..]), buf[..], p, NameBytes(f.name) + ValueBytes(f.value))
    decreases f, 1
  {
    q := Put(buf, p, NameBytes(f.name));
    ghost var named := buf[..];
    q := PutValue(buf, q, f.value);
    WroteTwice(old(buf[..]), named, buf[..], p, NameBytes(f.name), ValueBytes(f.value));
  }

  method PutFields(buf: array<char>, p: nat, fields: seq<Field>) returns (q: nat)
    requires p + FieldsSize(fields) <= buf.Length
    modifies buf
    ensures q == p + FieldsSize(fields) && Wrote(old(buf[..]), buf[..], p, FieldsBytes(fields))
    decreases fields, 2
  {
    q := p;
    var i := 0;
    ghost var done := "";
    WroteNothing(buf[..], p);
    assert fields[0..] == fields;
    while i < |fields|
      invariant 0 <= i <= |fields| && q == p + |done|
      invariant q + FieldsSize(fields[i..]) == p + FieldsSize(fields)
      invariant done + FieldsBytes(fields[i..]) == FieldsBytes(fields)
      invariant Wrote(old(buf[..]), buf[..], p, done)
    {
      ghost var before := buf[..];
      ghost var f := NameBytes(fields[i].name) + ValueBytes(fields[i].value);
      PayloadHasSize(fields[i].value);
      assert fields[i..][1..] == fields[i + 1..];
      q := PutField(buf, q, fields[i]);
      WroteTwice(old(buf[..]), before, buf[..], p, done, f);
      Assoc(done, f, FieldsBytes(fields[i + 1..]));
      done := done + f;
      i := i + 1;
    }
    assert done + "" == done;
  }

  /** `kdb_record_serialize`: 0 if the buffer is too small, else the number of bytes written. */
  method Serialize(r: Record, buf: array<char>) returns (n: nat)
    modifies buf
    ensures n == if buf.Length < SerialSize(r) then 0 else SerialSize(r)
    ensures Wrote(old(buf[..]), buf[..], 0, if buf.Length < SerialSize(r) then "" else Encode(r))
  {
    if buf.Length < SerialSize(r) {
      WroteNothing(buf[..], 0);
      return 0;
    }
    n := Put(buf, 0, Fixed(r));
    ghost var fixed := buf[..];
    n := PutFields(buf, n, r.fields);
    WroteTwice(old(buf[..]), fixed, buf[..], 0, Fixed(r), FieldsBytes(r.fields));
  }

  /** A loop's result so far, continued by what the rest of the buffer holds. */
  ghost function Continued<T>(done: seq<T>, used: nat, rest: Parsed<seq<T>>): Parsed<seq<T>> {
    match rest
    case Corrupt => Corrupt
    case Parsed(vs, k) => Parsed(done + vs, used + k)
  }

  lemma ContinuedStart<T>(p: Parsed<seq<T>>)
    ensures Continued([], 0, p) == p
  {
    if p.Parsed? {
      assert [] + p.value == p.value;
    }
  }

  lemma ItemsGoOn(all: Parsed<seq<Value>>, done: seq<Value>, s: string, p: nat, left: nat, depth: nat, v: Value, k: nat)
    requires p <= |s| && left > 0 && all == Continued(done, p, ReadItems(s[p..], left, depth))
    requires ReadValue(s[p..], depth) == Parsed(v, k)
    ensures p + k <= |s| && all == Continued(done + [v], p + k, ReadItems(s[p + k..], left - 1, depth))
  {
    assert s[p..][k..] == s[p + k..];
    var rest := ReadItems(s[p + k..], left - 1, depth);
    assert rest.Parsed? ==> done + ([v] + rest.value) == (done + [v]) + rest.value;
  }

  lemma FieldsGoOn(all: Parsed<seq<Field>>, done: seq<Field>, s: string, p: nat, left: nat, depth: nat,
                   f: Field, k: nat)
    requires p + MAX_NAME_LEN <= |s| && left > 0 && all == Continued(done, p, ReadFields(s[p..], left, depth))
    requires ReadValue(s[p..][MAX_NAME_LEN..], depth) == Parsed(f.value, k)
    requires f.name == CString(s[p..][..MAX_NAME_LEN - 1])
    ensures p + MAX_NAME_LEN + k <= |s|
    ensures all == Continued(done + [f], p + MAX_NAME_LEN + k, ReadFields(s[p + MAX_NAME_LEN + k..], left - 1, depth))
  {
    hide ReadFields, ReadValue, CString;
    assert s[p..][MAX_NAME_LEN + k..] == s[p + MAX_NAME_LEN + k..];
    var rest := ReadFields(s[p + MAX_NAME_LEN + k..], left - 1, depth);
    if rest.Parsed? {
      FieldsOfParts(s[p..], left, depth, f, k, rest.value, rest.used);
      assert done + ([f] + rest.value) == (done + [f]) + rest.value;
    } else {
      CorruptField(s[p..], left, depth, k);
    }
  }

  /** `kdb__read_value`. */
  method GetValue(s: string, depth: nat) returns (res: Parsed<Value>)
    ensures res == ReadValue(s, depth)
    decreases MAX_NEST_DEPTH + 1 - depth, 2, 0
  {
    if |s| < VALUE_HEADER_SIZE {
      return Corrupt;
    }
    var tag, rest := s[0] as int, s[VALUE_HEADER_SIZE..];
    if tag == 6 || tag == 7 {
      if depth >= MAX_NEST_DEPTH || !HasCount(rest) {
        return Corrupt;
      }
      var n := Number(rest[..4]);
      if tag == 6 {
        var items := GetItems(rest[4..], n, depth + 1);
        return match items
          case Corrupt => Corrupt
          case Parsed(vs, used) => Parsed(Array(vs), VALUE_HEADER_SIZE + 4 + used);
      }
      var fields := GetFields(rest[4..], n, depth + 1);
      return match fields
        case Corrupt => Corrupt
        case Parsed(fs, used) => Parsed(Object(fs), VALUE_HEADER_SIZE + 4 + used);
    }
    match ReadPayload(tag, rest, depth)
    case Corrupt => res := Corrupt;
    case Parsed(v, used) => res := Parsed(v, VALUE_HEADER_SIZE + used);
  }

  method GetItems(s: string, n: nat, depth: nat) returns (res: Parsed<seq<Value>>)
    ensures res == ReadItems(s, n, depth)
    decreases MAX_NEST_DEPTH + 1 - depth, 3, n
  {
    hide ReadItems, ReadValue, Continued;
    var items: seq<Value>, p: nat, i: nat := [], 0, 0;
    assert s[0..] == s;
    ghost var all := ReadItems(s, n, depth);
    ContinuedStart(all);
    while i < n
      invariant 0 <= i <= n && p <= |s|
      invariant all == Continued(items, p, ReadItems(s[p..], n - i, depth))
    {
      ItemsCutShort(all, items, s, p, n - i, depth);
      var v := GetValue(s[p..], depth);
      if v == Corrupt {
        return Corrupt;
      }
      ItemsGoOn(all, items, s, p, n - i, depth, v.value, v.used);
      items, p := items + [v.value], p + v.used;
      i := i + 1;
    }
    res := Parsed(items, p);
    ItemsDone(items, s, p, depth);
  }

  lemma ItemsCutShort(all: Parsed<seq<Value>>, done: seq<Value>, s: string, p: nat, left: nat, depth: nat)
    requires p <= |s| && left > 0 && all == Continued(done, p, ReadItems(s[p..], left, depth))
    ensures ReadValue(s[p..], depth) == Corrupt ==> all == Corrupt
  {
  }

  lemma ItemsDone(done: seq<Value>, s: string, p: nat, depth: nat)
    requires p <= |s|
    ensures Continued(done, p, ReadItems(s[p..], 0, depth)) == Parsed(done, p)
  {
    assert done + [] == done;
  }

  method GetFields(s: string, n: nat, depth: nat) returns (res: Parsed<seq<Field>>)
    ensures res == ReadFields(s, n, depth)
    decreases MAX_NEST_DEPTH + 1 - depth, 3, n
  {
    hide ReadFields, ReadValue, CString, Continued;
    var fields: seq<Field>, p: nat, i: nat := [], 0, 0;
    assert s[0..] == s;
    ghost var all := ReadFields(s, n, depth);
    ContinuedStart(all);
    while i < n
      invariant 0 <= i <= n && p <= |s|
      invariant all == Continued(fields, p, ReadFields(s[p..], n - i, depth))
    {
      FieldsCutShort(all, fields, s, p, n - i, depth);
      if |s| - p < MAX_NAME_LEN {
        return Corrupt;
      }
      var name := CString(s[p..][..MAX_NAME_LEN - 1]);
      var v := GetValue(s[p..][MAX_NAME_LEN..], depth);
      if v == Corrupt {
        return Corrupt;
      }
      FieldsGoOn(all, fields, s, p, n - i, depth, Field(name, v.value), v.used);
      fields, p := fields + [Field(name, v.value)], p + MAX_NAME_LEN + v.used;
      i := i + 1;
    }
    res := Parsed(fields, p);
    FieldsDone(fields, s, p, depth);
  }

  /** A name or a value that is not all there ends the loop. */
  lemma FieldsCutShort(all: Parsed<seq<Field>>, done: seq<Field>, s: string, p: nat, left: nat, depth: nat)
    requires p <= |s| && left > 0 && all == Continued(done, p, ReadFields(s[p..], left, depth))
    ensures |s| - p < MAX_NAME_LEN || ReadValue(s[p..][MAX_NAME_LEN..], depth) == Corrupt ==> all == Corrupt
  {
    if |s| - p >= MAX_NAME_LEN && ReadValue(s[p..][MAX_NAME_LEN..], depth) == Corrupt {
      CorruptField(s[p..], left, depth, 0);
    }
  }

  lemma FieldsDone(done: seq<Field>, s: string, p: nat, depth: nat)
    requires p <= |s|
    ensures Continued(done, p, ReadFields(s[p..], 0, depth)) == Parsed(done, p)
  {
    assert done + [] == done;
  }

  /** `kdb_record_deserialize`. */
  method Deserialize(s: string) returns (res: Parsed<Record>)
    ensures res == Decode(s)
  {
    if |s| < RECORD_FIXED_SIZE || Number(s[24..28]) > MAX_COLUMNS {
      return Corrupt;
    }
    var fields := GetFields(s[RECORD_FIXED_SIZE..], Number(s[24..28]), 0);
    match fields
    case Corrupt => res := Corrupt;
    case Parsed(fs, used) =>
      res := Parsed(Record(Number(s[..8]), Number(s[8..16]), Number(s[16..24]), s[28] as int, fs),
                    RECORD_FIXED_SIZE + used);
  }
}
