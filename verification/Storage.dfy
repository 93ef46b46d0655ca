/** Tables, hash indexes and queries (src/storage.c, src/index.c, src/query.c, src/table.c). */
module Storage {
  import opened Values
  import opened RecordCodec

  /** A table file is a header followed by one frame a record. An index chain holds the byte offsets of
    frames, newest first. The question throughout is whether a query answered through an index returns
    what a scan returns.
   */

  const INDEX_BUCKETS: nat := 1024
  const MAX_RECORDS: nat := 0x100_0000
  const MAX_COMPOSITE_COLS: nat := 4

  datatype Status = Ok | ErrFull | ErrNotFound | ErrValidation

  // ---------------------------------------------------------------- queries

  function GetField(fields: seq<Field>, col: string): Option<Value> {
    if fields == [] then None
    else if fields[0].name == col then Some(fields[0].value)
    else GetField(fields[1..], col)
  }

  /** The pseudo-columns every record has. */
  function Pseudo(r: Record, col: string): Option<Value> {
    if col == "id" then Some(Int(Signed(r.id % TWO_64)))
    else if col == "created_at" then Some(Int(Signed(r.createdAt % TWO_64)))
    else if col == "updated_at" then Some(Int(Signed(r.updatedAt % TWO_64)))
    else None
  }

  predicate Plain(col: string) {
    col != "id" && col != "created_at" && col != "updated_at"
  }

  /** `Other` stands for the text operators, each a function of the two values alone. */
  datatype Op = OpEq | OpNeq | OpGt | OpGte | OpLt | OpLte | OpBetween | OpIsNull | OpIsNotNull
              | Other(test: (Value, Value) -> bool)

  predicate ValueMatches(v: Value, op: Op, a: Value, b: Value) {
    var c := Compare(v, a);
    match op
    case OpEq => c == Equal
    case OpNeq => c != Equal && c != Incomparable
    case OpGt => c == Greater
    case OpGte => c == Greater || c == Equal
    case OpLt => c == Less
    case OpLte => c == Less || c == Equal
    case OpBetween =>
      (c == Greater || c == Equal) && (Compare(v, b) == Less || Compare(v, b) == Equal)
    case OpIsNull => v.Null?
    case OpIsNotNull => !v.Null?
    case Other(test) => test(v, a)
  }

  datatype Filter = Filter(col: string, op: Op, value: Value, value2: Value)

  /** Groups are OR'd, filters within a group AND'd. */
  type Query = seq<seq<Filter>>

  function Operand(r: Record, col: string): Option<Value> {
    if Pseudo(r, col).Some? then Pseudo(r, col) else GetField(r.fields, col)
  }

  predicate FilterMatches(f: Filter, r: Record) {
    match Operand(r, f.col)
    case None => f.op.OpIsNull?
    case Some(v) => ValueMatches(v, f.op, f.value, f.value2)
  }

  predicate GroupMatches(g: seq<Filter>, r: Record) {
    forall j :: 0 <= j < |g| ==> FilterMatches(g[j], r)
  }

  predicate Matches(q: Query, r: Record) {
    r.deleted == 0 && (|q| == 0 || exists i :: 0 <= i < |q| && GroupMatches(q[i], r))
  }

  /** The rows a scan returns: those that match, in file order. */
  function Select(rs: seq<Record>, q: Query): seq<Record> {
    if rs == [] then []
    else (if Matches(q, rs[0]) then [rs[0]] else []) + Select(rs[1..], q)
  }

  method TestGroup(g: seq<Filter>, r: Record) returns (b: bool)
    ensures b == GroupMatches(g, r)
  {
    var i := 0;
    while i < |g|
      invariant 0 <= i <= |g|
      invariant forall j :: 0 <= j < i ==> FilterMatches(g[j], r)
    {
      if !FilterMatches(g[i], r) {
        return false;
      }
      i := i + 1;
    }
    b := true;
  }

  /** `kdb_query_matches`. */
  method TestQuery(q: Query, r: Record) returns (b: bool)
    ensures b == Matches(q, r)
  {
    if r.deleted != 0 {
      return false;
    }
    if |q| == 0 {
      return true;
    }
    var i := 0;
    while i < |q|
      invariant 0 <= i <= |q|
      invariant forall j :: 0 <= j < i ==> !GroupMatches(q[j], r)
    {
      var one := TestGroup(q[i], r);
      if one {
        return true;
      }
      i := i + 1;
    }
    b := false;
  }

  // ---------------------------------------------------------------- hashing

  /** Exclusive or of the low `bits` bits. */
  function Xor(a: nat, b: nat, bits: nat): nat {
    if bits == 0 then 0 else (a + b) % 2 + 2 * Xor(a / 2, b / 2, bits - 1)
  }

  /** One FNV-1a step in 32 bits: exclusive or with a byte, then multiply by the prime. */
  function Step(h: nat, c: char): nat {
    ((h - h % 256 + Xor(h % 256, c as int % 256, 8)) * 16777619) % 0x1_0000_0000
  }

  function Mix(h: nat, s: string): nat
    decreases |s|
  {
    if s == "" then h else Mix(Step(h, s[0]), s[1..])
  }

  /** The bytes of a value that enter the hash; they say nothing of its type. */
  function HashBytes(v: Value): string {
    match v
    case Int(i) => Bytes(Unsigned(i), 8)
    case Float(bits) => Bytes(bits, 8)
    case Bool(b) => Byte(b)
    case Str(s) => CString(s)
    case Blob(s) => s
    case _ => [255 as char]
  }

  const FNV_BASIS: nat := 2166136261

  function MixAll(h: nat, vs: seq<Value>): nat
    decreases |vs|
  {
    if vs == [] then h else MixAll(Mix(h, HashBytes(vs[0])), vs[1..])
  }

  function Bucket(vs: seq<Value>): (b: nat)
    ensures b < INDEX_BUCKETS
  {
    MixAll(FNV_BASIS, vs) % INDEX_BUCKETS
  }

  lemma {:induction false} MixSameBytes(h: nat, vs: seq<Value>, ws: seq<Value>)
    requires |vs| == |ws| && forall i :: 0 <= i < |vs| ==> HashBytes(vs[i]) == HashBytes(ws[i])
    ensures MixAll(h, vs) == MixAll(h, ws)
    decreases |vs|
  {
    if vs != [] {
      MixSameBytes(Mix(h, HashBytes(vs[0])), vs[1..], ws[1..]);
    }
  }

  lemma {:induction false} XorSymmetric(a: nat, b: nat, bits: nat)
    ensures Xor(a, b, bits) == Xor(b, a, bits)
  {
    if bits > 0 {
      XorSymmetric(a / 2, b / 2, bits - 1);
    }
  }

  lemma {:induction false} XorBelow(a: nat, b: nat, bits: nat)
    ensures Xor(a, b, bits) < Pow2(bits)
  {
    if bits > 0 {
      XorBelow(a / 2, b / 2, bits - 1);
    }
  }

  lemma Digits(low: nat, high: nat, low': nat, high': nat)
    requires low < 2 && low' < 2
    ensures low + 2 * high == low' + 2 * high' <==> low == low' && high == high'
  {
  }

  lemma {:induction false} XorTells(a: nat, b: nat, c: nat, bits: nat)
    requires a < Pow2(bits) && b < Pow2(bits) && Xor(a, c, bits) == Xor(b, c, bits)
    ensures a == b
  {
    if bits > 0 {
      var x, y := Xor(a / 2, c / 2, bits - 1), Xor(b / 2, c / 2, bits - 1);
      Digits((a + c) % 2, x, (b + c) % 2, y);
      XorTells(a / 2, b / 2, c / 2, bits - 1);
      hide Xor, Pow2;
      Digits(a % 2, a / 2, b % 2, b / 2);
    }
  }

  lemma LowBytesTell(g: nat, h: nat, c: nat, d: nat)
    requires g < 256 && h < 256 && c < 256 && d < 256 && Xor(g, c, 8) == Xor(h, d, 8)
    ensures g == h <==> c == d
  {
    hide Xor;
    assert Pow2(8) == 256;
    if c == d {
      XorTells(g, h, c, 8);
    } else if g == h {
      XorSymmetric(g, c, 8);
      XorSymmetric(g, d, 8);
      XorTells(c, d, g, 8);
    }
  }

  /** Modulo the number of buckets a step loses nothing: neither of the hash so far nor of the byte. */
  lemma StepTells(g: nat, h: nat, c: char, d: char)
    requires c as int < 256 && d as int < 256
    requires (g % INDEX_BUCKETS == h % INDEX_BUCKETS) != (c == d)
    ensures Step(g, c) % INDEX_BUCKETS != Step(h, d) % INDEX_BUCKETS
  {
    hide Xor, Pow2;
    var x, y := Xor(g % 256, c as int, 8), Xor(h % 256, d as int, 8);
    XorByte(g % 256, c as int);
    XorByte(h % 256, d as int);
    LowBytes(g, h);
    if x == y {
      LowBytesTell(g % 256, h % 256, c as int, d as int);
    }
    PagesDiffer(g, h, x, y);
    OddFactor(g - g % 256 + x, h - h % 256 + y);
  }

  lemma XorByte(a: nat, b: nat)
    ensures Xor(a, b, 8) < 256
  {
    hide Xor;
    assert Pow2(8) == 256;
    XorBelow(a, b, 8);
  }

  lemma {:induction false} LowBytes(g: nat, h: nat)
    ensures g % INDEX_BUCKETS == h % INDEX_BUCKETS ==> g % 256 == h % 256
  {
    LowBits(g);
    LowBits(h);
  }

  lemma {:induction false} PagesDiffer(g: nat, h: nat, x: nat, y: nat)
    requires x < 256 && y < 256
    requires x == y ==> (g % 256 == h % 256 ==> g % INDEX_BUCKETS != h % INDEX_BUCKETS)
    requires x == y ==> (g % 256 != h % 256 ==> g % INDEX_BUCKETS == h % INDEX_BUCKETS)
    ensures (g - g % 256 + x) % INDEX_BUCKETS != (h - h % 256 + y) % INDEX_BUCKETS
  {
    LowBits(g);
    LowBits(h);
    Paged(g, x);
    Paged(h, y);
  }

  lemma Paged(g: nat, x: nat)
    requires x < 256
    ensures (g - g % 256 + x) % INDEX_BUCKETS == 256 * (g / 256 % 4) + x
  {
    LowBits(g - g % 256 + x);
    assert (g - g % 256 + x) / 256 == g / 256;
  }

  lemma LowBits(g: nat)
    ensures g % INDEX_BUCKETS == 256 * (g / 256 % 4) + g % 256
  {
  }

  lemma {:induction false} OddFactor(m: nat, n: nat)
    requires m % INDEX_BUCKETS != n % INDEX_BUCKETS
    ensures (m * 16777619) % 0x1_0000_0000 % INDEX_BUCKETS != (n * 16777619) % 0x1_0000_0000 % INDEX_BUCKETS
  {
    Inverse(m);
    Inverse(n);
  }

  /** The FNV prime can be undone modulo the number of buckets. */
  lemma {:induction false} Inverse(m: nat)
    ensures (m * 16777619) % 0x1_0000_0000 % INDEX_BUCKETS * 155 % INDEX_BUCKETS == m % INDEX_BUCKETS
  {
    var p := m * 16777619;
    var w, r := p / 0x1_0000_0000, p % 0x1_0000_0000;
    var k, e := r / 1024, r % 1024;
    assert p * 155 == m + 1024 * (2539581 * m) && p == 0x1_0000_0000 * w + 1024 * k + e;
    SameRemainder(e * 155, m, 2539581 * m - 155 * k - 155 * 0x40_0000 * w);
  }

  lemma SameRemainder(a: int, b: int, k: int)
    requires a == b + INDEX_BUCKETS * k
    ensures a % INDEX_BUCKETS == b % INDEX_BUCKETS
  {
  }

  lemma {:induction false} MixTells(g: nat, h: nat, s: string)
    requires g % INDEX_BUCKETS != h % INDEX_BUCKETS && IsBytes(s)
    ensures Mix(g, s) % INDEX_BUCKETS != Mix(h, s) % INDEX_BUCKETS
    decreases |s|
  {
    hide Step;
    if s != "" {
      StepTells(g, h, s[0], s[0]);
      MixTells(Step(g, s[0]), Step(h, s[0]), s[1..]);
    }
  }

  method HashMix(h0: nat, v: Value) returns (h: nat)
    ensures h == Mix(h0, HashBytes(v))
  {
    h := h0;
    var bytes := HashBytes(v);
    var k := 0;
    assert bytes[0..] == bytes;
    while k < |bytes|
      invariant 0 <= k <= |bytes|
      invariant Mix(h, bytes[k..]) == Mix(h0, bytes)
    {
      assert bytes[k..][1..] == bytes[k + 1..];
      h := Step(h, bytes[k]);
      k := k + 1;
    }
  }

  /** `kdb_index_hash_multi`. */
  method HashMulti(vs: seq<Value>) returns (b: nat)
    ensures b == Bucket(vs)
  {
    var h: nat := FNV_BASIS;
    var i := 0;
    assert vs[0..] == vs;
    while i < |vs|
      invariant 0 <= i <= |vs|
      invariant MixAll(h, vs[i..]) == MixAll(FNV_BASIS, vs)
    {
      assert vs[i..][1..] == vs[i + 1..];
      h := HashMix(h, vs[i]);
      i := i + 1;
    }
    b := h % INDEX_BUCKETS;
  }

  // ---------------------------------------------------------------- index contents

  /** The values an index hashes for a record; a record missing one of the columns is not indexed. */
  function IndexKey(cols: seq<string>, r: Record): Option<seq<Value>> {
    if cols == [] then Some([])
    else
      match GetField(r.fields, cols[0])
      case None => None
      case Some(v) =>
        match IndexKey(cols[1..], r)
        case None => None
        case Some(vs) => Some([v] + vs)
  }

  predicate InBucket(cols: seq<string>, r: Record, b: nat) {
    IndexKey(cols, r).Some? && Bucket(IndexKey(cols, r).value) == b
  }

  datatype Node = Node(recordId: nat, offset: nat)

  /** A bucket's chain over the records of a file whose first frame starts at `base`: newest first. */
  function Chain(cols: seq<string>, rs: seq<Record>, base: nat, b: nat): seq<Node> {
    if rs == [] then []
    else
      var last := |rs| - 1;
      (if InBucket(cols, rs[last], b) then [Node(rs[last].id, base + |Frames(rs[..last])|)] else [])
      + Chain(cols, rs[..last], base, b)
  }

  /** The records a chain stands for. */
  function BucketRecords(cols: seq<string>, rs: seq<Record>, b: nat): seq<Record> {
    if rs == [] then []
    else
      var last := |rs| - 1;
      (if InBucket(cols, rs[last], b) then [rs[last]] else []) + BucketRecords(cols, rs[..last], b)
  }

  function OtherRecords(cols: seq<string>, rs: seq<Record>, b: nat): seq<Record> {
    if rs == [] then []
    else
      var last := |rs| - 1;
      (if InBucket(cols, rs[last], b) then [] else [rs[last]]) + OtherRecords(cols, rs[..last], b)
  }

  ghost predicate Readable(rs: seq<Record>) {
    forall i :: 0 <= i < |rs| ==> FitsFrame(rs[i]) && rs[i].deleted == 0
  }

  lemma {:induction false} FramesAppend(a: seq<Record>, b: seq<Record>)
    ensures Frames(a + b) == Frames(a) + Frames(b)
  {
    if a == [] {
      assert a + b == b;
    } else {
      assert (a + b)[1..] == a[1..] + b;
      FramesAppend(a[1..], b);
      Assoc(Frame(a[0]), Frames(a[1..]), Frames(b));
    }
  }

  /** The frame at a record's offset is that record. */
  lemma {:induction false} ReadAtOffset(rs: seq<Record>, k: nat)
    requires Readable(rs) && k < |rs|
    ensures |Frames(rs[..k])| <= |Frames(rs)|
    ensures var p := ReadFrame(Frames(rs)[|Frames(rs[..k])|..]); p.Parsed? && p.value == rs[k]
  {
    assert rs == rs[..k] + rs[k..] && rs[k..][1..] == rs[k + 1..];
    FramesAppend(rs[..k], rs[k..]);
    Split(Frames(rs[..k]), Frames(rs[k..]));
    FrameReadsBack(rs[k], Frames(rs[k + 1..]));
  }

  /** The entry's offset is the start of record `r`'s frame. */
  ghost predicate PointsTo(n: Node, r: Record, all: seq<Record>, base: nat) {
    && n.recordId == r.id && base <= n.offset <= base + |Frames(all)|
    && var p := ReadFrame(Frames(all)[n.offset - base..]); p.Parsed? && p.value == r
  }

  ghost predicate AllPointTo(chain: seq<Node>, rs: seq<Record>, all: seq<Record>, base: nat) {
    |chain| == |rs| && forall k :: 0 <= k < |chain| ==> PointsTo(chain[k], rs[k], all, base)
  }

  lemma PointToCons(n: Node, r: Record, chain: seq<Node>, rs: seq<Record>, all: seq<Record>, base: nat)
    requires PointsTo(n, r, all, base) && AllPointTo(chain, rs, all, base)
    ensures AllPointTo([n] + chain, [r] + rs, all, base)
  {
    hide ReadFrame, Frames, Frame;
    forall k | 0 <= k < |chain| + 1
      ensures PointsTo(([n] + chain)[k], ([r] + rs)[k], all, base)
    {
      if k > 0 {
        assert PointsTo(chain[k - 1], rs[k - 1], all, base);
      }
    }
  }

  lemma PointsToFrame(all: seq<Record>, k: nat, base: nat)
    requires Readable(all) && k < |all|
    ensures PointsTo(Node(all[k].id, base + |Frames(all[..k])|), all[k], all, base)
  {
    hide Frames, Frame, ReadFrame, FitsFrame;
    ReadAtOffset(all, k);
  }

  /** Every entry of a chain is the start of its record's frame. */
  lemma {:induction false} ChainReadsBack(cols: seq<string>, all: seq<Record>, k: nat, base: nat, b: nat)
    requires Readable(all) && k <= |all|
    ensures AllPointTo(Chain(cols, all[..k], base, b), BucketRecords(cols, all[..k], b), all, base)
  {
    hide ReadFrame, Frames, Frame, PointsTo, Bucket, FitsFrame;
    if k > 0 {
      ChainReadsBack(cols, all, k - 1, base, b);
      assert all[..k][..k - 1] == all[..k - 1];
      if InBucket(cols, all[k - 1], b) {
        PointsToFrame(all, k - 1, base);
        PointToCons(Node(all[k - 1].id, base + |Frames(all[..k - 1])|), all[k - 1],
                    Chain(cols, all[..k - 1], base, b), BucketRecords(cols, all[..k - 1], b), all, base);
      }
    }
  }

  // ---------------------------------------------------------------- index path against scan

  lemma {:induction false} SelectAppend(a: seq<Record>, b: seq<Record>, q: Query)
    ensures Select(a + b, q) == Select(a, q) + Select(b, q)
  {
    hide Matches;
    if a == [] {
      assert a + b == b;
    } else {
      assert (a + b)[1..] == a[1..] + b && (a + b)[0] == a[0];
      SelectAppend(a[1..], b, q);
      var one := if Matches(q, a[0]) then [a[0]] else [];
      assert Select(a + b, q) == one + Select(a[1..] + b, q);
      assert one + (Select(a[1..], q) + Select(b, q)) == (one + Select(a[1..], q)) + Select(b, q);
    }
  }

  lemma SelectOne(r: Record, later: seq<Record>, q: Query)
    ensures Select([r] + later, q) == Select([r], q) + Select(later, q)
    ensures multiset(Select([r] + later, q)) == multiset(Select([r], q)) + multiset(Select(later, q))
  {
    SelectAppend([r], later, q);
  }

  lemma PartitionLast(cols: seq<string>, front: seq<Record>, r: Record, b: nat)
    ensures var inside, outside := BucketRecords(cols, front, b), OtherRecords(cols, front, b);
      && BucketRecords(cols, front + [r], b) == (if InBucket(cols, r, b) then [r] + inside else inside)
      && OtherRecords(cols, front + [r], b) == (if InBucket(cols, r, b) then outside else [r] + outside)
  {
    hide InBucket;
    assert (front + [r])[..|front|] == front;
  }

  lemma {:induction false} SelectPartition(cols: seq<string>, rs: seq<Record>, b: nat, q: Query)
    ensures multiset(Select(rs, q)) ==
      multiset(Select(BucketRecords(cols, rs, b), q)) + multiset(Select(OtherRecords(cols, rs, b), q))
  {
    hide Matches, InBucket;
    if rs == [] {
      assert multiset(Select([], q)) == multiset{};
    } else {
      SelectPartition(cols, rs[..|rs| - 1], b, q);
      PartitionStep(cols, rs, rs[..|rs| - 1], b, q);
    }
  }

  lemma {:induction false} PartitionStep(cols: seq<string>, rs: seq<Record>, front: seq<Record>, b: nat, q: Query)
    requires rs != [] && front == rs[..|rs| - 1]
    requires multiset(Select(front, q)) ==
      multiset(Select(BucketRecords(cols, front, b), q)) + multiset(Select(OtherRecords(cols, front, b), q))
    ensures multiset(Select(rs, q)) ==
      multiset(Select(BucketRecords(cols, rs, b), q)) + multiset(Select(OtherRecords(cols, rs, b), q))
  {
    hide Matches, InBucket, BucketRecords, OtherRecords, Select;
    var r := rs[|rs| - 1];
    assert rs == front + [r];
    PartitionLast(cols, front, r, b);
    SelectAppend(front, [r], q);
    if InBucket(cols, r, b) {
      SelectOne(r, BucketRecords(cols, front, b), q);
    } else {
      SelectOne(r, OtherRecords(cols, front, b), q);
    }
  }

  lemma {:induction false} SelectEmpty(rs: seq<Record>, q: Query)
    ensures Select(rs, q) == [] <==> forall r :: r in rs ==> !Matches(q, r)
  {
    hide Matches;
    if rs != [] {
      SelectEmpty(rs[1..], q);
    }
  }

  lemma {:induction false} OtherRecordsAre(cols: seq<string>, rs: seq<Record>, b: nat)
    ensures forall r :: r in OtherRecords(cols, rs, b) <==> r in rs && !InBucket(cols, r, b)
  {
    if rs != [] {
      var last := |rs| - 1;
      OtherRecordsAre(cols, rs[..last], b);
      assert rs == rs[..last] + [rs[last]];
    }
  }

  /** Looking at the first `n` entries of a bucket finds what the scan finds exactly when every matching
      record hashes to that bucket and none of them lies behind those entries. */
  lemma {:induction false} IndexAgreesWithScan(cols: seq<string>, rs: seq<Record>, b: nat, n: nat, q: Query)
    requires n <= |BucketRecords(cols, rs, b)|
    ensures multiset(Select(BucketRecords(cols, rs, b)[..n], q)) == multiset(Select(rs, q)) <==>
      && (forall r :: r in rs && Matches(q, r) ==> InBucket(cols, r, b))
      && (forall r :: r in BucketRecords(cols, rs, b)[n..] ==> !Matches(q, r))
  {
    hide Matches, InBucket, Select, BucketRecords, OtherRecords;
    var inside, outside := BucketRecords(cols, rs, b), OtherRecords(cols, rs, b);
    SelectPartition(cols, rs, b, q);
    assert inside == inside[..n] + inside[n..];
    SelectAppend(inside[..n], inside[n..], q);
    SelectEmpty(inside[n..], q);
    SelectEmpty(outside, q);
    OtherRecordsAre(cols, rs, b);
    var front, back, far := Select(inside[..n], q), Select(inside[n..], q), Select(outside, q);
    assert multiset(Select(rs, q)) == multiset(front) + multiset(back) + multiset(far);
    if multiset(front) == multiset(Select(rs, q)) {
      assert |multiset(front)| == |multiset(front)| + |multiset(back)| + |multiset(far)|;
    } else {
      assert back != [] || far != [];
    }
  }

  /** Values as the file format holds them; NaN patterns are left out. */
  predicate InWidth(v: Value) {
    match v
    case Int(i) => Int64(i)
    case Float(bits) => bits < TWO_64 && bits % TWO_63 <= 2047 * TWO_52
    case Bool(b) => b < 256
    case _ => true
  }

  predicate SameType(a: Value, b: Value) {
    a.Int? == b.Int? && a.Float? == b.Float? && a.Bool? == b.Bool?
  }

  /** No other bytes of the same type are equal to this filter value: it is not an integer that shares its
      double with another one, nor one of the two zeros. */
  predicate Lone(v: Value) {
    match v
    case Int(i) => LoneInt(i)
    case Float(bits) => bits % TWO_63 != 0
    case _ => true
  }

  /** A stored value and a filter value whose equality is that of their bytes. */
  predicate SameKind(stored: Value, given: Value) {
    stored == given || (SameType(stored, given) && InWidth(stored) && InWidth(given) && Lone(given))
  }

  lemma {:induction false} EqualKindHashesEqually(a: Value, b: Value)
    requires Eq(a, b) && SameKind(a, b)
    ensures HashBytes(a) == HashBytes(b)
  {
    hide DoubleOf, FloatOf;
    if a != b && a.Int? {
      assert DoubleOf(a.i) as real == DoubleOf(b.i) as real;
      LoneExactly(b.i);
    } else if a != b && a.Float? {
      SameFloat(a.bits, b.bits);
    }
  }

  /** Equality with a filter value decides the hashed bytes exactly when the value is `Lone`. */
  lemma {:induction false} HashFollowsEquality(v: Value)
    requires InWidth(v)
    ensures Lone(v) <==>
      forall u :: InWidth(u) && SameType(u, v) && Eq(u, v) ==> HashBytes(u) == HashBytes(v)
  {
    hide DoubleOf, FloatOf, Bytes, LoneInt;
    if Lone(v) {
      forall u | InWidth(u) && SameType(u, v) && Eq(u, v)
        ensures HashBytes(u) == HashBytes(v)
      {
        EqualKindHashesEqually(u, v);
      }
    } else if v.Int? {
      LoneExactly(v.i);
      var x :| Int64(x) && DoubleOf(x) == DoubleOf(v.i) && x != v.i;
      assert InWidth(Int(x)) && Eq(Int(x), v);
      IntBytesDiffer(x, v.i);
    } else {
      var zero := if v.bits == 0 then TWO_63 else 0;
      assert InWidth(Float(zero));
      SameFloat(zero, v.bits);
      Powers();
      NumberOfBytes(zero, 8);
      NumberOfBytes(v.bits, 8);
    }
  }

  lemma IntBytesDiffer(x: int, v: int)
    requires Int64(x) && Int64(v) && x != v
    ensures HashBytes(Int(x)) != HashBytes(Int(v))
  {
    hide Bytes, Number;
    Powers();
    NumberOfBytes(Unsigned(x), 8);
    NumberOfBytes(Unsigned(v), 8);
    assert Unsigned(x) != Unsigned(v);
  }

  lemma {:induction false} MatchingRecordInBucket(cols: seq<string>, r: Record, vs: seq<Value>)
    requires |vs| == |cols|
    requires forall k :: 0 <= k < |cols| ==>
      var v := GetField(r.fields, cols[k]); v.Some? && Eq(v.value, vs[k]) && SameKind(v.value, vs[k])
    ensures InBucket(cols, r, Bucket(vs))
  {
    IndexKeyHashes(cols, r, vs);
    MixSameBytes(FNV_BASIS, IndexKey(cols, r).value, vs);
  }

  lemma {:induction false} IndexKeyHashes(cols: seq<string>, r: Record, vs: seq<Value>)
    requires |vs| == |cols|
    requires forall k :: 0 <= k < |cols| ==>
      var v := GetField(r.fields, cols[k]); v.Some? && Eq(v.value, vs[k]) && SameKind(v.value, vs[k])
    ensures var key := IndexKey(cols, r);
      key.Some? && |key.value| == |vs| && forall i :: 0 <= i < |vs| ==> HashBytes(key.value[i]) == HashBytes(vs[i])
  {
    if cols != [] {
      IndexKeyHashes(cols[1..], r, vs[1..]);
      EqualKindHashesEqually(GetField(r.fields, cols[0]).value, vs[0]);
    }
  }

  // ---------------------------------------------------------------- the index

  class Index {
    const cols: seq<string>
    const buckets: array<seq<Node>>

    constructor (cols: seq<string>)
      ensures this.cols == cols && fresh(buckets) && buckets.Length == INDEX_BUCKETS
      ensures forall b :: 0 <= b < INDEX_BUCKETS ==> buckets[b] == []
    {
      this.cols := cols;
      buckets := new seq<Node>[INDEX_BUCKETS](_ => []);
    }

    /** The chains are those of the records in a file whose first frame starts at `base`. */
    ghost predicate Holds(rs: seq<Record>, base: nat)
      reads buckets
    {
      buckets.Length == INDEX_BUCKETS && forall b :: 0 <= b < INDEX_BUCKETS ==> buckets[b] == Chain(cols, rs, base, b)
    }

    /** `kdb_index_insert`: the new entry goes to the head of its chain. */
    method Insert(r: Record, offset: nat, ghost rs: seq<Record>, ghost base: nat)
      requires Holds(rs, base) && offset == base + |Frames(rs)|
      modifies buckets
      ensures Holds(rs + [r], base)
    {
      hide Frames, Frame, Bucket;
      forall b | 0 <= b < INDEX_BUCKETS
        ensures Chain(cols, rs + [r], base, b) ==
          (if InBucket(cols, r, b) then [Node(r.id, offset)] else []) + Chain(cols, rs, base, b)
      {
        assert (rs + [r])[..|rs|] == rs;
      }
      var key := IndexKey(cols, r);
      if key.Some? {
        var b := HashMulti(key.value);
        buckets[b] := [Node(r.id, offset)] + buckets[b];
      }
    }

    /** `kdb_index_rebuild`: empties every chain, then scans the file with a running offset. */
    method Rebuild(file: string, base: nat, ghost rs: seq<Record>)
      requires buckets.Length == INDEX_BUCKETS
      requires base <= |file| && file[base..] == Frames(rs) && Readable(rs)
      modifies buckets
      ensures Holds(rs, base)
    {
      hide Frames, Frame, ReadFrame, Bucket, SerialSize, FitsFrame;
      var i := 0;
      while i < INDEX_BUCKETS
        invariant 0 <= i <= INDEX_BUCKETS
        invariant forall b :: 0 <= b < i ==> buckets[b] == []
      {
        buckets[i] := [];
        i := i + 1;
      }
      var offset: nat, more := base, true;
      ghost var k := 0;
      ScanStart(file, base, rs);
      while more
        invariant 0 <= k <= |rs| && base <= offset <= |file|
        invariant AtFrame(file, base, rs, offset, k)
        invariant Holds(rs[..k], base)
        invariant !more ==> k == |rs|
        decreases |rs| - k, more
      {
        ScanStep(file, base, rs, offset, k);
        var p := ReadFrame(file[offset..]);
        if p.Parsed? {
          Insert(p.value, offset, rs[..k], base);
          assert rs[..k + 1] == rs[..k] + [rs[k]];
          offset := offset + 4 + SerialSize(p.value);
          k := k + 1;
        } else {
          more := false;
        }
      }
      assert rs[..k] == rs;
    }

    /** `kdb_index_lookup_multi`: the offsets in the chain of the values' bucket, as many as fit. */
    method Lookup(vs: seq<Value>, maxResults: nat) returns (offsets: seq<nat>)
      requires buckets.Length == INDEX_BUCKETS
      ensures var chain := buckets[Bucket(vs)];
        |offsets| == (if |chain| <= maxResults then |chain| else maxResults)
        && forall k :: 0 <= k < |offsets| ==> offsets[k] == chain[k].offset
    {
      var b := HashMulti(vs);
      var chain := buckets[b];
      offsets := [];
      while |offsets| < |chain| && |offsets| < maxResults
        invariant |offsets| <= |chain| && |offsets| <= maxResults
        invariant forall k :: 0 <= k < |offsets| ==> offsets[k] == chain[k].offset
        decreases |chain| - |offsets|
      {
        offsets := offsets + [chain[|offsets|].offset];
      }
    }
  }

  // ---------------------------------------------------------------- scanning a file

  /** A cursor that has passed the frames of the first `k` records. */
  ghost predicate AtFrame(file: string, base: nat, rs: seq<Record>, offset: nat, k: nat) {
    k <= |rs| && offset == base + |Frames(rs[..k])| && offset <= |file| && file[offset..] == Frames(rs[k..])
  }

  lemma ScanStart(file: string, base: nat, rs: seq<Record>)
    requires base <= |file| && file[base..] == Frames(rs)
    ensures AtFrame(file, base, rs, base, 0)
  {
    assert rs[..0] == [] && rs[0..] == rs;
  }

  /** At a cursor between frames, a read yields the next record, or fails at the end of the file. */
  lemma {:induction false} ScanStep(file: string, base: nat, rs: seq<Record>, offset: nat, k: nat)
    requires Readable(rs) && AtFrame(file, base, rs, offset, k)
    ensures k == |rs| ==> ReadFrame(file[offset..]) == Corrupt
    ensures k < |rs| ==> ReadFrame(file[offset..]) == Parsed(rs[k], 4 + SerialSize(rs[k]))
    ensures k < |rs| ==> AtFrame(file, base, rs, offset + 4 + SerialSize(rs[k]), k + 1)
  {
    hide ReadFrame, Frame, SerialSize, FitsRecord;
    if k < |rs| {
      assert rs[k..][1..] == rs[k + 1..] && rs[..k + 1] == rs[..k] + [rs[k]];
      FramesAppend(rs[..k], [rs[k]]);
      assert Frames([rs[k]]) == Frame(rs[k]) + "" == Frame(rs[k]);
      FrameReadsBack(rs[k], Frames(rs[k + 1..]));
      assert file[offset..][|Frame(rs[k])|..] == file[offset + |Frame(rs[k])|..];
    } else {
      EmptyFileEnds();
    }
  }

  lemma EmptyFileEnds()
    ensures ReadFrame("") == Corrupt
  {
  }

  // ---------------------------------------------------------------- which index answers a query

  datatype Plan = Scan | Through(index: nat, values: seq<Value>)

  predicate AllIn(cols: seq<string>, among: seq<string>) {
    forall i :: 0 <= i < |cols| ==> cols[i] in among
  }

  /** `kdb_index_find` and `kdb_index_find_composite`: the first index over as many columns as the group has
      filters that covers each filter's column. */
  function FindIndex(defs: seq<seq<string>>, cols: seq<string>, from: nat): (i: nat)
    ensures i < |defs| ==> from <= i && |defs[i]| == |cols| && AllIn(cols, defs[i])
    ensures forall k :: from <= k < i && k < |defs| ==> !(|defs[k]| == |cols| && AllIn(cols, defs[k]))
    decreases |defs| - from
  {
    if from >= |defs| then from
    else if |defs[from]| == |cols| && AllIn(cols, defs[from]) then from
    else FindIndex(defs, cols, from + 1)
  }

  function FilterCols(g: seq<Filter>): seq<string> {
    seq(|g|, i requires 0 <= i < |g| => g[i].col)
  }

  /** The value the group's first filter on this column gives. */
  function ValueFor(g: seq<Filter>, col: string): Option<Value> {
    if |g| == 0 then None else if g[0].col == col then Some(g[0].value) else ValueFor(g[1..], col)
  }

  /** The filter values in the index's own column order, if every index column has a filter. */
  function Reorder(g: seq<Filter>, cols: seq<string>): (o: Option<seq<Value>>)
    ensures o.Some? ==> |o.value| == |cols|
  {
    if cols == [] then Some([])
    else
      match ValueFor(g, cols[0])
      case None => None
      case Some(v) =>
        match Reorder(g, cols[1..])
        case None => None
        case Some(vs) => Some([v] + vs)
  }

  predicate AllEq(g: seq<Filter>) {
    forall i :: 0 <= i < |g| ==> g[i].op.OpEq?
  }

  /** One group of at most `MAX_COMPOSITE_COLS` equality filters may go through an index. */
  function PlanFor(defs: seq<seq<string>>, q: Query): (plan: Plan)
    ensures plan.Through? ==> plan.index < |defs| && |plan.values| == |defs[plan.index]|
  {
    if |q| != 1 || |q[0]| == 0 || |q[0]| > MAX_COMPOSITE_COLS || !AllEq(q[0]) then Scan
    else
      var i := FindIndex(defs, FilterCols(q[0]), 0);
      if i >= |defs| then Scan
      else
        match Reorder(q[0], defs[i])
        case None => Scan
        case Some(vs) => Through(i, vs)
  }

  // ---------------------------------------------------------------- the table

  function SetField(fields: seq<Field>, name: string, v: Value): seq<Field> {
    if fields == [] then [Field(name, v)]
    else if fields[0].name == name then [Field(name, v)] + fields[1..]
    else [fields[0]] + SetField(fields[1..], name, v)
  }

  function SetFields(fields: seq<Field>, patch: seq<Field>): seq<Field>
    decreases |patch|
  {
    if patch == [] then fields else SetFields(SetField(fields, patch[0].name, patch[0].value), patch[1..])
  }

  function PatchRecord(r: Record, patch: seq<Field>, now: nat): Record {
    r.(fields := SetFields(r.fields, patch), updatedAt := now)
  }

  /** What a rewrite does to each record. */
  datatype Transform = Keep | Update(q: Query, patch: seq<Field>, now: nat) | Delete(q: Query)

  function Transformed(t: Transform, r: Record): Record {
    match t
    case Keep => r
    case Update(q, patch, now) => if Matches(q, r) then PatchRecord(r, patch, now) else r
    case Delete(q) => if Matches(q, r) then r.(deleted := 1) else r
  }

  /** The records a rewrite leaves: transformed, the deleted ones gone. */
  function Rewritten(t: Transform, rs: seq<Record>): seq<Record> {
    if rs == [] then []
    else
      var r := Transformed(t, rs[0]);
      (if r.deleted == 0 then [r] else []) + Rewritten(t, rs[1..])
  }

  lemma {:induction false} RewrittenAppend(t: Transform, a: seq<Record>, r: Record)
    ensures Rewritten(t, a + [r]) ==
      Rewritten(t, a) + if Transformed(t, r).deleted == 0 then [Transformed(t, r)] else []
  {
    hide Transformed, Rewritten;
    var tail := if Transformed(t, r).deleted == 0 then [Transformed(t, r)] else [];
    if a == [] {
      assert a + [r] == [r] && [r][1..] == [];
      RewrittenHead(t, [r]);
      RewrittenNothing(t);
    } else {
      RewrittenAppend(t, a[1..], r);
      RewrittenHead(t, a + [r]);
      RewrittenHead(t, a);
      var head := if Transformed(t, a[0]).deleted == 0 then [Transformed(t, a[0])] else [];
      assert (a + [r])[1..] == a[1..] + [r];
      assert head + (Rewritten(t, a[1..]) + tail) == (head + Rewritten(t, a[1..])) + tail;
    }
  }

  lemma RewrittenNothing(t: Transform)
    ensures Rewritten(t, []) == []
  {
  }

  lemma RewrittenHead(t: Transform, rs: seq<Record>)
    requires rs != []
    ensures Rewritten(t, rs)
         == (if Transformed(t, rs[0]).deleted == 0 then [Transformed(t, rs[0])] else []) + Rewritten(t, rs[1..])
  {
    hide Transformed;
  }

  lemma {:induction false} RewrittenReadable(t: Transform, rs: seq<Record>)
    requires forall i :: 0 <= i < |rs| ==> Transformed(t, rs[i]).deleted != 0 || FitsFrame(Transformed(t, rs[i]))
    ensures Readable(Rewritten(t, rs))
  {
    hide FitsFrame, Transformed;
    if rs != [] {
      RewrittenReadable(t, rs[1..]);
    }
  }

  function DefsOf(indices: seq<Index>): seq<seq<string>> {
    seq(|indices|, i requires 0 <= i < |indices| => indices[i].cols)
  }

  // The loops behind the plan.

  method LocateIndex(indices: seq<Index>, cols: seq<string>) returns (i: nat)
    ensures i == FindIndex(DefsOf(indices), cols, 0)
  {
    i := 0;
    ghost var defs := DefsOf(indices);
    while i < |indices|
      invariant 0 <= i <= |indices|
      invariant FindIndex(defs, cols, i) == FindIndex(defs, cols, 0)
    {
      if |indices[i].cols| == |cols| {
        var allFound, a := true, 0;
        while a < |cols| && allFound
          invariant 0 <= a <= |cols|
          invariant allFound <==> AllIn(cols[..a], defs[i])
        {
          var found, e := false, 0;
          while e < |indices[i].cols| && !found
            invariant 0 <= e <= |indices[i].cols|
            invariant found <==> cols[a] in indices[i].cols[..e]
          {
            found := indices[i].cols[e] == cols[a];
            e := e + 1;
          }
          assert !found ==> indices[i].cols[..e] == indices[i].cols;
          allFound := found;
          a := a + 1;
        }
        assert allFound ==> cols[..a] == cols;
        if allFound {
          return;
        }
      }
      i := i + 1;
    }
  }

  method FirstValue(g: seq<Filter>, col: string) returns (v: Option<Value>)
    ensures v == ValueFor(g, col)
  {
    v := None;
    var i := 0;
    assert g[0..] == g;
    while i < |g|
      invariant 0 <= i <= |g|
      invariant v == None && ValueFor(g, col) == ValueFor(g[i..], col)
    {
      assert g[i..][1..] == g[i + 1..];
      if g[i].col == col {
        return Some(g[i].value);
      }
      i := i + 1;
    }
  }

  method ReorderValues(g: seq<Filter>, cols: seq<string>) returns (vs: Option<seq<Value>>)
    ensures vs == Reorder(g, cols)
  {
    hide Reorder, ValueFor, Prefixed;
    var done: seq<Value> := [];
    var k := 0;
    PrefixedByNothing(g, cols);
    while k < |cols|
      invariant 0 <= k <= |cols|
      invariant Reorder(g, cols) == Prefixed(done, Reorder(g, cols[k..]))
    {
      var v := FirstValue(g, cols[k]);
      PrefixedNext(g, cols, k, done);
      if v == None {
        return None;
      }
      done := done + [v.value];
      k := k + 1;
    }
    PrefixedWhole(g, cols[k..], done);
    vs := Some(done);
  }

  lemma PrefixedByNothing(g: seq<Filter>, cols: seq<string>)
    ensures Reorder(g, cols) == Prefixed([], Reorder(g, cols[0..]))
  {
    assert cols[0..] == cols;
    assert Reorder(g, cols).Some? ==> [] + Reorder(g, cols).value == Reorder(g, cols).value;
  }

  lemma PrefixedNext(g: seq<Filter>, cols: seq<string>, k: nat, done: seq<Value>)
    requires k < |cols|
    ensures Prefixed(done, Reorder(g, cols[k..]))
         == if ValueFor(g, cols[k]).None? then None
            else Prefixed(done + [ValueFor(g, cols[k]).value], Reorder(g, cols[k + 1..]))
  {
    hide ValueFor;
    assert cols[k..][1..] == cols[k + 1..];
    var v, rest := ValueFor(g, cols[k]), Reorder(g, cols[k + 1..]);
    assert v.Some? && rest.Some? ==> done + ([v.value] + rest.value) == (done + [v.value]) + rest.value;
  }

  lemma PrefixedWhole(g: seq<Filter>, cols: seq<string>, done: seq<Value>)
    requires cols == []
    ensures Prefixed(done, Reorder(g, cols)) == Some(done)
  {
    assert done + [] == done;
  }

  ghost function Prefixed(done: seq<Value>, rest: Option<seq<Value>>): Option<seq<Value>> {
    if rest.None? then None else Some(done + rest.value)
  }

  method ChoosePlan(indices: seq<Index>, q: Query) returns (plan: Plan)
    ensures plan == PlanFor(DefsOf(indices), q)
  {
    if |q| != 1 || |q[0]| == 0 || |q[0]| > MAX_COMPOSITE_COLS || !AllEq(q[0]) {
      return Scan;
    }
    var i := LocateIndex(indices, FilterCols(q[0]));
    if i >= |indices| {
      return Scan;
    }
    var vs := ReorderValues(q[0], indices[i].cols);
    plan := match vs case None => Scan case Some(values) => Through(i, values);
  }

  class Table {
    const base: nat
    var file: string
    var nextId: nat
    var recordCount: nat
    const indices: seq<Index>
    ghost var records: seq<Record>

    /** The file holds exactly these records, none deleted, and every index describes it. */
    ghost predicate Valid()
      reads this, set i | 0 <= i < |indices| :: indices[i].buckets
    {
      Stored() && forall i :: 0 <= i < |indices| ==> indices[i].Holds(records, base)
    }

    ghost predicate Stored()
      reads this
    {
      && base <= |file| && file[base..] == Frames(records) && Readable(records) && recordCount == |records|
      && (forall i, j :: 0 <= i < j < |indices| ==> indices[i].buckets != indices[j].buckets)
    }

    ghost function Footprint(): set<object> {
      {this} + set i | 0 <= i < |indices| :: indices[i].buckets
    }

    constructor (header: string, indices: seq<Index>)
      requires forall i :: 0 <= i < |indices| ==> indices[i].Holds([], |header|)
      requires forall i, j :: 0 <= i < j < |indices| ==> indices[i].buckets != indices[j].buckets
      ensures Valid() && records == [] && this.indices == indices && base == |header|
    {
      this.base, file, nextId, recordCount := |header|, header, 1, 0;
      this.indices, records := indices, [];
    }

    /** `kdb_storage_scan` with the query callback. */
    method ScanSelect(q: Query) returns (rows: seq<Record>)
      requires Stored()
      ensures rows == Select(records, q)
    {
      hide Frames, Frame, ReadFrame, FitsFrame, SerialSize, Matches;
      rows := [];
      var offset: nat, more := base, true;
      ghost var k := 0;
      ScanStart(file, base, records);
      while more
        invariant 0 <= k <= |records| && base <= offset <= |file|
        invariant AtFrame(file, base, records, offset, k)
        invariant rows == Select(records[..k], q)
        invariant !more ==> k == |records|
        decreases |records| - k, more
      {
        ScanStep(file, base, records, offset, k);
        var p := ReadFrame(file[offset..]);
        if p.Parsed? {
          var hit := TestQuery(q, p.value);
          assert records[..k + 1] == records[..k] + [records[k]];
          SelectAppend(records[..k], [records[k]], q);
          if hit {
            rows := rows + [p.value];
          }
          offset := offset + 4 + SerialSize(p.value);
          k := k + 1;
        } else {
          more := false;
        }
      }
      assert records[..k] == records;
    }

    /** Reads the frames at the given offsets and keeps the matching records. */
    method ReadMatching(offsets: seq<nat>, q: Query, ghost rs: seq<Record>) returns (rows: seq<Record>)
      requires |offsets| == |rs|
      requires forall k :: 0 <= k < |rs| ==> offsets[k] <= |file|
      requires forall k :: 0 <= k < |rs| ==>
        ReadFrame(file[offsets[k]..]).Parsed? && ReadFrame(file[offsets[k]..]).value == rs[k]
      ensures rows == Select(rs, q)
    {
      hide ReadFrame, Matches;
      rows := [];
      var i := 0;
      while i < |offsets|
        invariant 0 <= i <= |offsets|
        invariant rows == Select(rs[..i], q)
      {
        var p := ReadFrame(file[offsets[i]..]);
        var hit := TestQuery(q, p.value);
        assert rs[..i + 1] == rs[..i] + [rs[i]];
        SelectAppend(rs[..i], [rs[i]], q);
        if hit {
          rows := rows + [p.value];
        }
        i := i + 1;
      }
      assert rs[..i] == rs;
    }

    /** `kdb_query_execute`. Through an index the rows are the matching ones among the first
        `INDEX_BUCKETS` entries of the bucket; an empty bucket falls back to the scan. */
    method Execute(q: Query) returns (rows: seq<Record>)
      requires Valid()
      ensures rows == Answer(indices, records, q)
    {
      hide Frames, ReadFrame, Matches, InBucket, Bucket, Readable;
      var plan := ChoosePlan(indices, q);
      if plan.Through? {
        var idx := indices[plan.index];
        var offsets := idx.Lookup(plan.values, INDEX_BUCKETS);
        ghost var b := Bucket(plan.values);
        ghost var chain, rs := Chain(idx.cols, records, base, b), BucketRecords(idx.cols, records, b);
        assert records[..|records|] == records;
        ChainReadsBack(idx.cols, records, |records|, base, b);
        if |offsets| > 0 {
          forall k | 0 <= k < |offsets|
            ensures offsets[k] <= |file|
            ensures ReadFrame(file[offsets[k]..]).Parsed? && ReadFrame(file[offsets[k]..]).value == rs[k]
          {
            assert PointsTo(chain[k], rs[k], records, base);
            assert file[base..][offsets[k] - base..] == file[offsets[k]..];
          }
          assert |rs| <= INDEX_BUCKETS ==> rs[..|offsets|] == rs;
          rows := ReadMatching(offsets, q, rs[..|offsets|]);
          return;
        }
      }
      rows := ScanSelect(q);
    }

    /** `kdb_storage_append`: the record gets the next id and its frame goes to the end of the file. */
    method Append(r: Record) returns (st: Status, stored: Record)
      requires Stored() && FitsFrame(r.(id := nextId)) && r.deleted == 0
      modifies this
      ensures Stored()
      ensures st == if |old(records)| >= MAX_RECORDS then ErrFull else Ok
      ensures st == Ok ==> stored == r.(id := old(nextId)) && nextId == old(nextId) + 1
      ensures st == Ok ==> file == old(file) + Frame(stored) && records == old(records) + [stored]
      ensures st != Ok ==> file == old(file) && records == old(records) && nextId == old(nextId)
    {
      hide Frame, FitsFrame;
      stored := r;
      if recordCount >= MAX_RECORDS {
        return ErrFull, stored;
      }
      stored := r.(id := nextId);
      ghost var was := file;
      file := file + Frame(stored);
      FramesAppend(records, [stored]);
      assert Frames([stored]) == Frame(stored) + "" == Frame(stored);
      assert file[base..] == was[base..] + Frame(stored);
      records := records + [stored];
      nextId, recordCount := nextId + 1, recordCount + 1;
      st := Ok;
    }

    /** `kdb_table_insert`, once the table's constraints have been checked. */
    method Insert(r: Record, refused: bool) returns (st: Status)
      requires Valid() && FitsFrame(r.(id := nextId)) && r.deleted == 0
      modifies Footprint()
      ensures Valid()
      ensures st == Ok <==> !refused && |old(records)| < MAX_RECORDS
      ensures st == Ok ==> records == old(records) + [r.(id := old(nextId))] && nextId == old(nextId) + 1
      ensures st != Ok ==> records == old(records) && nextId == old(nextId)
    {
      hide Frames, Frame, FitsFrame;
      if refused {
        return ErrValidation;
      }
      var offset, stored := |file|, r;
      ghost var before := records;
      assert file == file[..base] + file[base..];
      st, stored := Append(r);
      if st == Ok {
        IndexAll(stored, offset, before);
      }
    }

    method IndexAll(stored: Record, offset: nat, ghost before: seq<Record>)
      requires Stored() && records == before + [stored] && offset == base + |Frames(before)|
      requires forall i :: 0 <= i < |indices| ==> indices[i].Holds(before, base)
      modifies set i | 0 <= i < |indices| :: indices[i].buckets
      ensures Valid()
    {
      hide Frames, Frame, FitsFrame;
      var i := 0;
      while i < |indices|
        invariant 0 <= i <= |indices|
        invariant Stored()
        invariant forall k :: 0 <= k < i ==> indices[k].Holds(records, base)
        invariant forall k :: i <= k < |indices| ==> indices[k].Holds(before, base)
      {
        indices[i].Insert(stored, offset, before, base);
        i := i + 1;
      }
    }

    /** `kdb_storage_rewrite`: streams every record through the transform into a new file, which then
        replaces the old one. The indexes are stale until they are rebuilt. */
    method Rewrite(t: Transform)
      requires Stored()
      requires forall i :: 0 <= i < |records| ==>
        Transformed(t, records[i]).deleted != 0 || FitsFrame(Transformed(t, records[i]))
      modifies this
      ensures Stored() && records == Rewritten(t, old(records))
      ensures nextId >= old(nextId) && forall r :: r in records ==> r.id < nextId
    {
      hide Frames, Frame, ReadFrame, FitsFrame, SerialSize, Transformed;
      var out, count, next := file[..base], 0, nextId;
      var offset: nat, more := base, true;
      ghost var k := 0;
      ScanStart(file, base, records);
      FramesOfNothing();
      while more
        invariant Stored() && file == old(file) && records == old(records) && nextId == old(nextId)
        invariant 0 <= k <= |records| && base <= offset <= |file|
        invariant AtFrame(file, base, records, offset, k)
        invariant |out| >= base && out[base..] == Frames(Rewritten(t, records[..k]))
        invariant count == |Rewritten(t, records[..k])| && next >= nextId
        invariant forall r :: r in Rewritten(t, records[..k]) ==> r.id < next
        invariant !more ==> k == |records|
        decreases |records| - k, more
      {
        ScanStep(file, base, records, offset, k);
        var p := ReadFrame(file[offset..]);
        if p.Parsed? {
          var r := Transformed(t, p.value);
          assert records[..k + 1] == records[..k] + [records[k]];
          RewrittenAppend(t, records[..k], records[k]);
          assert Rewritten(t, records[..k]) + [] == Rewritten(t, records[..k]);
          if r.deleted == 0 {
            FramesAppendOne(Rewritten(t, records[..k]), r);
            assert (out + Frame(r))[base..] == out[base..] + Frame(r);
            out, count := out + Frame(r), count + 1;
            if r.id >= next {
              next := r.id + 1;
            }
          }
          offset := offset + 4 + SerialSize(p.value);
          k := k + 1;
        } else {
          more := false;
        }
      }
      assert records[..k] == records;
      RewrittenReadable(t, old(records));
      file, recordCount, nextId := out, count, next;
      records := Rewritten(t, records);
    }

    method RebuildAll()
      requires Stored() && forall i :: 0 <= i < |indices| ==> indices[i].buckets.Length == INDEX_BUCKETS
      modifies set i | 0 <= i < |indices| :: indices[i].buckets
      ensures Valid()
    {
      hide Frames, FitsFrame;
      var i := 0;
      while i < |indices|
        invariant 0 <= i <= |indices|
        invariant Stored()
        invariant forall k :: 0 <= k < i ==> indices[k].Holds(records, base)
      {
        indices[i].Rebuild(file, base, records);
        i := i + 1;
      }
    }

    /** `kdb_table_update`, `kdb_table_delete` and `kdb_table_compact`: rewrite the file, rebuild every index. */
    method Apply(t: Transform, refused: bool) returns (st: Status)
      requires Valid()
      requires forall i :: 0 <= i < |records| ==>
        Transformed(t, records[i]).deleted != 0 || FitsFrame(Transformed(t, records[i]))
      modifies Footprint()
      ensures Valid()
      ensures st == (if refused then ErrValidation else Ok)
      ensures records == if refused then old(records) else Rewritten(t, old(records))
    {
      if refused {
        return ErrValidation;
      }
      Rewrite(t);
      RebuildAll();
      st := Ok;
    }
  }

  lemma FramesOfNothing()
    ensures Frames([]) == ""
  {
  }

  lemma FramesAppendOne(rs: seq<Record>, r: Record)
    ensures Frames(rs + [r]) == Frames(rs) + Frame(r)
  {
    hide Frame;
    FramesAppend(rs, [r]);
    assert Frames([r]) == Frame(r) + "" == Frame(r);
  }

  /** What `Execute` returns, as a function of the records. */
  ghost function Answer(indices: seq<Index>, rs: seq<Record>, q: Query): seq<Record> {
    match PlanFor(DefsOf(indices), q)
    case Scan => Select(rs, q)
    case Through(i, vs) =>
      var found := BucketRecords(indices[i].cols, rs, Bucket(vs));
      if found == [] then Select(rs, q)
      else Select(if |found| <= INDEX_BUCKETS then found else found[..INDEX_BUCKETS], q)
  }

  /** A query answers as the scan does exactly when it does not go through an index, or its bucket is empty,
      or every matching row is in the bucket and within its first `INDEX_BUCKETS` entries. */
  lemma {:induction false} AnswerAgreesWithScan(indices: seq<Index>, rs: seq<Record>, q: Query)
    ensures multiset(Answer(indices, rs, q)) == multiset(Select(rs, q)) <==>
      match PlanFor(DefsOf(indices), q)
      case Scan => true
      case Through(i, vs) =>
        var b := Bucket(vs);
        var found := BucketRecords(indices[i].cols, rs, b);
        found == [] ||
        ((forall r :: r in rs && Matches(q, r) ==> InBucket(indices[i].cols, r, b))
         && forall k :: INDEX_BUCKETS <= k < |found| ==> !Matches(q, found[k]))
  {
    hide Matches, InBucket, Bucket, BucketRecords, Select;
    var plan := PlanFor(DefsOf(indices), q);
    if plan.Through? {
      var cols, b := indices[plan.index].cols, Bucket(plan.values);
      var found := BucketRecords(cols, rs, b);
      var n := if |found| <= INDEX_BUCKETS then |found| else INDEX_BUCKETS;
      IndexAgreesWithScan(cols, rs, b, n, q);
      assert found[..|found|] == found;
      assert forall k :: n <= k < |found| ==> found[k] == found[n..][k - n];
    }
  }

  ghost predicate HasFilter(g: seq<Filter>, col: string, v: Value) {
    exists i :: 0 <= i < |g| && g[i].col == col && g[i].value == v
  }

  lemma {:induction false} ReorderedFrom(g: seq<Filter>, cols: seq<string>)
    requires Reorder(g, cols).Some?
    ensures forall k :: 0 <= k < |cols| ==>
      HasFilter(g, cols[k], Reorder(g, cols).value[k])
  {
    if cols != [] {
      ReorderedFrom(g, cols[1..]);
      ValueForFrom(g, cols[0]);
    }
  }

  lemma {:induction false} ValueForFrom(g: seq<Filter>, col: string)
    requires ValueFor(g, col).Some?
    ensures HasFilter(g, col, ValueFor(g, col).value)
  {
    if g[0].col != col {
      ValueForFrom(g[1..], col);
      var i :| 0 <= i < |g[1..]| && g[1..][i].col == col && g[1..][i].value == ValueFor(g[1..], col).value;
      assert g[i + 1].col == col;
    }
  }

  /** The filter values have the types stored in the index's columns, and are `Lone` unless each equal value stored
      is the filter value itself. */
  ghost predicate Typed(cols: seq<string>, vs: seq<Value>, rs: seq<Record>)
    requires |vs| == |cols|
  {
    forall r, k :: r in rs && 0 <= k < |cols| && GetField(r.fields, cols[k]).Some? ==>
      Eq(GetField(r.fields, cols[k]).value, vs[k]) ==> SameKind(GetField(r.fields, cols[k]).value, vs[k])
  }

  /** With values of the stored types, columns that are not pseudo-columns and chains within the lookup's
      reach, a query through an index returns the rows the scan returns. */
  lemma {:induction false} IndexRefinesScan(indices: seq<Index>, rs: seq<Record>, q: Query)
    requires var plan := PlanFor(DefsOf(indices), q); plan.Through? ==>
      && Typed(indices[plan.index].cols, plan.values, rs)
      && (forall c :: c in indices[plan.index].cols ==> Plain(c))
      && |BucketRecords(indices[plan.index].cols, rs, Bucket(plan.values))| <= INDEX_BUCKETS
    ensures multiset(Answer(indices, rs, q)) == multiset(Select(rs, q))
  {
    hide Answer, Select, Matches, InBucket, Bucket, BucketRecords, Typed;
    AnswerAgreesWithScan(indices, rs, q);
    var plan := PlanFor(DefsOf(indices), q);
    if plan.Through? {
      forall r | r in rs && Matches(q, r)
        ensures InBucket(indices[plan.index].cols, r, Bucket(plan.values))
      {
        MatchInBucket(q, indices[plan.index].cols, plan.values, rs, r);
      }
    }
  }

  lemma {:induction false} MatchInBucket(q: Query, cols: seq<string>, vs: seq<Value>, rs: seq<Record>, r: Record)
    requires |q| == 1 && AllEq(q[0]) && Reorder(q[0], cols) == Some(vs) && |vs| == |cols|
    requires Typed(cols, vs, rs) && r in rs && Matches(q, r)
    requires forall c :: c in cols ==> Plain(c)
    ensures InBucket(cols, r, Bucket(vs))
  {
    hide Bucket, InBucket, Reorder, Compare, SameKind;
    ReorderedFrom(q[0], cols);
    forall k | 0 <= k < |cols|
      ensures var v := GetField(r.fields, cols[k]); v.Some? && Eq(v.value, vs[k]) && SameKind(v.value, vs[k])
    {
      assert HasFilter(q[0], cols[k], vs[k]);
      var i :| 0 <= i < |q[0]| && q[0][i].col == cols[k] && q[0][i].value == vs[k];
      assert GroupMatches(q[0], r) && FilterMatches(q[0][i], r);
      assert cols[k] in cols;
    }
    MatchingRecordInBucket(cols, r, vs);
  }

  // Where the index path loses rows.

  function Row(id: nat, col: string, v: Value): Record {
    Record(id, 0, 0, 0, [Field(col, v)])
  }

  function EqQuery(col: string, v: Value): Query {
    [[Filter(col, OpEq, v, Null)]]
  }

  lemma RowMatches(id: nat, col: string, x: Value, v: Value)
    requires Plain(col) && Eq(x, v)
    ensures Matches(EqQuery(col, v), Row(id, col, x)) && IndexKey([col], Row(id, col, x)) == Some([x])
  {
    hide Compare;
    var r, q := Row(id, col, x), EqQuery(col, v);
    assert Operand(r, col) == Some(x);
    assert GroupMatches(q[0], r);
    assert [col][1..] == [] && [x] + [] == [x];
  }

  lemma {:induction false} PlanForEq(idx: Index, col: string, v: Value)
    requires idx.cols == [col]
    ensures PlanFor(DefsOf([idx]), EqQuery(col, v)) == Through(0, [v])
  {
    var defs, g := DefsOf([idx]), EqQuery(col, v)[0];
    assert defs == [[col]] && FilterCols(g) == [col];
    assert FindIndex(defs, [col], 0) == 0;
    assert ValueFor(g, col) == Some(v) && [col][1..] == [] && [v] + [] == [v];
    assert Reorder(g, [col]) == Some([v]);
  }

  lemma {:induction false} SelectBoth(a: Record, b: Record, q: Query)
    requires Matches(q, a) && Matches(q, b)
    ensures Select([a, b], q) == [a, b]
  {
    hide Matches;
    assert [a, b][1..] == [b] && [b][1..] == [];
    assert Select([b], q) == [b] + Select([], q);
  }

  lemma {:induction false} BucketOfTwo(cols: seq<string>, a: Record, b: Record, home: nat)
    requires InBucket(cols, b, home)
    ensures b in BucketRecords(cols, [a, b], home) && |BucketRecords(cols, [a, b], home)| <= 2
  {
    hide InBucket;
    assert [a, b][..1] == [a] && [a][..0] == [];
    assert |BucketRecords(cols, [a], home)| <= 1;
  }

  /** Two rows that satisfy a filter are both found through the index exactly when they share a bucket. */
  lemma {:induction false} PairThroughIndex(idx: Index, col: string, x: Value, v: Value)
    requires idx.cols == [col] && Plain(col) && Eq(x, v) && Eq(v, v)
    ensures var rs, q := [Row(1, col, x), Row(2, col, v)], EqQuery(col, v);
      && Select(rs, q) == rs
      && (multiset(Answer([idx], rs, q)) == multiset(Select(rs, q)) <==> Bucket([x]) == Bucket([v]))
  {
    hide Compare, Bucket, Matches, IndexKey, PlanFor, BucketRecords, Answer, Select, Row, EqQuery;
    var a, b, q := Row(1, col, x), Row(2, col, v), EqQuery(col, v);
    RowMatches(1, col, x, v);
    RowMatches(2, col, v, v);
    SelectBoth(a, b, q);
    PlanForEq(idx, col, v);
    BucketOfTwo([col], a, b, Bucket([v]));
    AnswerAgreesWithScan([idx], [a, b], q);
    assert a in [a, b] && b in [a, b];
  }

  lemma {:induction false} BucketOf(v: Value)
    ensures Bucket([v]) == Mix(FNV_BASIS, HashBytes(v)) % INDEX_BUCKETS
  {
    hide Mix, HashBytes;
    var h := Mix(FNV_BASIS, HashBytes(v));
    assert [v][1..] == [] && MixAll(h, []) == h;
    assert MixAll(FNV_BASIS, [v]) == MixAll(h, [v][1..]);
  }

  lemma LowByte(x: int, v: int)
    requires Int64(x) && Int64(v) && x != v && x / 256 == v / 256
    ensures Unsigned(x) / 256 == Unsigned(v) / 256 && Unsigned(x) % 256 != Unsigned(v) % 256
  {
    var q := x / 256;
    assert x == 256 * q + x % 256 && v == 256 * q + v % 256;
    assert Unsigned(x) == (if x < 0 then x + TWO_64 else x) && Unsigned(v) == (if v < 0 then v + TWO_64 else v);
  }

  lemma FirstByte(n: nat, h: nat)
    ensures IsBytes(Bytes(n / 256, 7))
    ensures Mix(h, Bytes(n, 8)) == Mix(Step(h, (n % 256) as char), Bytes(n / 256, 7))
  {
    hide Step;
    NumberOfBytes(n / 256, 7);
    assert Bytes(n, 8)[1..] == Bytes(n / 256, 7);
  }

  /** Integers that differ in the lowest byte alone are never in the same bucket. */
  lemma {:induction false} LowByteSeparates(x: int, v: int)
    requires Int64(x) && Int64(v) && x != v && x / 256 == v / 256
    ensures Bucket([Int(x)]) != Bucket([Int(v)])
  {
    hide Step, Bucket, Mix, Bytes, Unsigned, IsBytes;
    var m, n := Unsigned(x), Unsigned(v);
    LowByte(x, v);
    FirstByte(m, FNV_BASIS);
    FirstByte(n, FNV_BASIS);
    var c, d := (m % 256) as char, (n % 256) as char;
    StepTells(FNV_BASIS, FNV_BASIS, c, d);
    MixTells(Step(FNV_BASIS, c), Step(FNV_BASIS, d), Bytes(m / 256, 7));
    BucketOf(Int(x));
    BucketOf(Int(v));
  }

  /** Of two such integers that become the same double, an index finds only the one the filter spells. */
  lemma {:induction false} EqualIntsMissed(idx: Index, col: string, x: int, v: int)
    requires idx.cols == [col] && Plain(col)
    requires Int64(x) && Int64(v) && x != v && x / 256 == v / 256 && DoubleOf(x) == DoubleOf(v)
    ensures var rs, q := [Row(1, col, Int(x)), Row(2, col, Int(v))], EqQuery(col, Int(v));
      Select(rs, q) == rs && multiset(Answer([idx], rs, q)) != multiset(Select(rs, q))
  {
    hide Answer, Select, Bucket, DoubleOf;
    LowByteSeparates(x, v);
    PairThroughIndex(idx, col, Int(x), Int(v));
  }

  /** The first integer that is not a double: 2^53 + 1 is equal to 2^53, and an index does not find it. */
  lemma {:induction false} BigIntMissed(idx: Index, col: string)
    requires idx.cols == [col] && Plain(col)
    ensures var rs, q := [Row(1, col, Int(9007199254740993)), Row(2, col, Int(9007199254740992))],
                         EqQuery(col, Int(9007199254740992));
      Select(rs, q) == rs && multiset(Answer([idx], rs, q)) != multiset(Select(rs, q))
  {
    hide Answer, Select;
    assert DoubleOf(9007199254740993) == DoubleOf(9007199254740992);
    EqualIntsMissed(idx, col, 9007199254740993, 9007199254740992);
  }

  /** The hash is typed while the comparison is not: 1 and TRUE are equal, and an index does not find 1 for TRUE. */
  lemma {:induction false} EqualValuesHashDifferently(idx: Index, col: string)
    requires idx.cols == [col] && Plain(col)
    ensures var rs, q := [Row(1, col, Int(1)), Row(2, col, Bool(1))], EqQuery(col, Bool(1));
      Select(rs, q) == rs && multiset(Answer([idx], rs, q)) != multiset(Select(rs, q))
  {
    hide Answer, Select, Bucket;
    OneAndTrueApart();
    assert DoubleOf(1) == 1;
    PairThroughIndex(idx, col, Int(1), Bool(1));
  }

  lemma {:induction false} OneAndTrueApart()
    ensures Bucket([Int(1)]) != Bucket([Bool(1)])
  {
    hide Bucket, Step, Bytes, Mix;
    var start := Step(FNV_BASIS, 1 as char);
    FirstByte(1, FNV_BASIS);
    ZeroBytes(7);
    ZeroSteps(start, 7);
    StartIs();
    DriftIs();
    MixOne(FNV_BASIS, 1 as char);
    BucketOf(Int(1));
    BucketOf(Bool(1));
  }

  lemma MixOne(h: nat, c: char)
    ensures Mix(h, [c]) == Step(h, c)
  {
    hide Step;
    assert [c][1..] == "";
  }

  lemma {:induction false} StartIs()
    ensures Step(FNV_BASIS, 1 as char) % INDEX_BUCKETS == 908
  {
    hide Step;
    StepOne(FNV_BASIS);
  }

  lemma {:induction false} StepOne(h: nat)
    requires h % 256 == 197
    ensures Step(h, 1 as char) % INDEX_BUCKETS == (h - 1) % INDEX_BUCKETS * 403 % INDEX_BUCKETS
  {
    hide Xor;
    FirstXor(h % 256, 98, 7);
    PrimeFactor(h - 1);
  }

  lemma {:induction false} FirstXor(n: nat, half: nat, bits: nat)
    requires n == 2 * half + 1 && bits == 7 && half < 128
    ensures Xor(n, 1, bits + 1) == n - 1
  {
    assert Pow2(bits) == 128;
    XorZero(half, bits);
  }

  lemma {:induction false} DriftIs()
    ensures Drift(908, 7) == 580
  {
    hide Drift;
    DriftStep(908, 356, 7);
    DriftStep(356, 108, 6);
    DriftStep(108, 516, 5);
    DriftStep(516, 76, 4);
    DriftStep(76, 932, 3);
    DriftStep(932, 812, 2);
    DriftStep(812, 580, 1);
    DriftStep(580, 580, 0);
  }

  lemma {:induction false} DriftStep(b: nat, c: nat, k: nat)
    requires if k == 0 then c == b else c == b * 403 % INDEX_BUCKETS
    ensures Drift(b, k) == if k == 0 then c else Drift(c, k - 1)
  {
  }

  lemma {:induction false} XorZero(a: nat, bits: nat)
    requires a < Pow2(bits)
    ensures Xor(a, 0, bits) == a
  {
    if bits > 0 {
      XorZero(a / 2, bits - 1);
    }
  }

  lemma {:induction false} ZeroBytes(k: nat)
    ensures Bytes(0, k) == Zeros(k)
  {
    if k > 0 {
      ZeroBytes(k - 1);
      assert Zeros(k) == [0 as char] + Zeros(k - 1);
    }
  }

  /** What mixing in zero bytes does to the bucket. */
  function Drift(b: nat, k: nat): nat
    decreases k
  {
    if k == 0 then b else Drift(b * 403 % INDEX_BUCKETS, k - 1)
  }

  lemma {:induction false} ZeroSteps(h: nat, k: nat)
    ensures Mix(h, Zeros(k)) % INDEX_BUCKETS == Drift(h % INDEX_BUCKETS, k)
    decreases k
  {
    if k > 0 {
      assert Zeros(k)[1..] == Zeros(k - 1);
      ZeroSteps(Step(h, '\0'), k - 1);
      assert Pow2(8) == 256;
      XorZero(h % 256, 8);
      hide Xor, Pow2, Mix, Drift;
      assert Step(h, '\0') == h * 16777619 % 0x1_0000_0000;
      PrimeFactor(h);
    }
  }

  lemma {:induction false} PrimeFactor(h: nat)
    ensures h * 16777619 % 0x1_0000_0000 % INDEX_BUCKETS == h % INDEX_BUCKETS * 403 % INDEX_BUCKETS
  {
    var p := h * 16777619;
    var w, r := p / 0x1_0000_0000, p % 0x1_0000_0000;
    SameRemainder(r, h % INDEX_BUCKETS * 403, h * 16384 + h / INDEX_BUCKETS * 403 - 0x40_0000 * w);
  }
}
