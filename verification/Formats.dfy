/** The bytes of records and hashes (src/record.c, src/index.c), byte by byte. */
module Formats {
  import opened Values
  import opened RecordCodec
  import GroupingSets
  import Storage

  /** Byte `i` of a number is its digit to the base 256. */
  lemma {:induction false} LittleEndian(n: nat, k: nat, i: nat)
    requires i < k
    ensures Pow256(i) > 0 && Bytes(n, k)[i] as int == n / Pow256(i) % 256
  {
    if i > 0 {
      LittleEndian(n / 256, k - 1, i - 1);
      assert Bytes(n, k)[1..][i - 1] == Bytes(n, k)[i];
      DividedTwice(n, 256, Pow256(i - 1));
    }
  }

  lemma DividedTwice(n: nat, a: nat, b: nat)
    requires a > 0 && b > 0
    ensures a * b > 0 && n / a / b == n / (a * b)
  {
    var q, r := n / a, n % a;
    var d, t := q / b, q % b;
    Remainder(n, a);
    Remainder(q, b);
    assert q * a + r == d * (a * b) + (t * a + r) by {
      Regroup(d, b, t, a);
    }
    Within(t, b, a, r);
    GroupingSets.Quotient(n, a * b, d, t * a + r);
  }

  lemma Remainder(x: nat, p: nat)
    requires p > 0
    ensures x == x / p * p + x % p && x % p < p
  {
  }

  lemma Regroup(d: nat, b: nat, t: nat, a: nat)
    ensures (d * b + t) * a == d * (a * b) + t * a
  {
    assert (d * b) * a == d * (a * b);
  }

  lemma Within(t: nat, b: nat, a: nat, r: nat)
    requires t < b && r < a
    ensures t * a + r < a * b
  {
    GroupingSets.Monotone(t + 1, b, a);
    assert (t + 1) * a == t * a + a;
  }

  /** Where the parts of a record are: its id, the timestamps, the number of fields, the deleted flag, and from byte
      32 on the fields, of which the first has its name in 128 bytes, its type in the one behind, and its payload
      eight bytes on. */
  lemma RecordLayout(r: Record)
    ensures var s := Encode(r);
      && |s| >= 32
      && s[0..8] == Bytes(r.id, 8) && s[8..16] == Bytes(r.createdAt, 8) && s[16..24] == Bytes(r.updatedAt, 8)
      && s[24..28] == Bytes(|r.fields|, 4) && s[28] as int == r.deleted % 256 && s[29..32] == Zeros(3)
      && (r.fields != [] ==>
            && |s| >= 168 && s[32..160] == NameBytes(r.fields[0].name)
            && s[160] as int == Tag(r.fields[0].value) % 256 && s[161..168] == Zeros(7)
            && s[168..] == Payload(r.fields[0].value) + FieldsBytes(r.fields[1..]))
  {
    hide Bytes, Payload, NameBytes, Zeros;
    FixedLayout(r);
    var s, fixed, rest := Encode(r), Fixed(r), FieldsBytes(r.fields);
    assert s[0..8] == fixed[0..8] && s[8..16] == fixed[8..16] && s[16..24] == fixed[16..24];
    assert s[24..28] == fixed[24..28] && s[28] == fixed[28] && s[29..32] == fixed[29..32];
    if r.fields != [] {
      FieldLayout(r.fields);
      assert s[32..] == rest;
      assert s[32..160] == rest[0..128] && s[160] == rest[128] && s[161..168] == rest[129..136];
      assert s[168..] == rest[136..];
    }
  }

  lemma FixedLayout(r: Record)
    ensures var s := Fixed(r);
      && s[0..8] == Bytes(r.id, 8) && s[8..16] == Bytes(r.createdAt, 8) && s[16..24] == Bytes(r.updatedAt, 8)
      && s[24..28] == Bytes(|r.fields|, 4) && s[28] as int == r.deleted % 256 && s[29..32] == Zeros(3)
  {
    hide Bytes, Zeros;
  }

  lemma FieldLayout(fields: seq<Field>)
    requires fields != []
    ensures var s := FieldsBytes(fields);
      && |s| >= 136 && s[0..128] == NameBytes(fields[0].name)
      && s[128] as int == Tag(fields[0].value) % 256 && s[129..136] == Zeros(7)
      && s[136..] == Payload(fields[0].value) + FieldsBytes(fields[1..])
  {
    hide Bytes, NameBytes, Payload, Zeros, FieldsBytes;
    var s, value, rest := FieldsBytes(fields), ValueBytes(fields[0].value), FieldsBytes(fields[1..]);
    assert s == NameBytes(fields[0].name) + value + rest by {
      FieldsFirst(fields);
    }
    assert s[128..] == value + rest;
    assert s[129..136] == value[1..8] && s[136..] == value[8..] + rest;
  }

  lemma FieldsFirst(fields: seq<Field>)
    requires fields != []
    ensures FieldsBytes(fields)
         == NameBytes(fields[0].name) + ValueBytes(fields[0].value) + FieldsBytes(fields[1..])
  {
    hide NameBytes, ValueBytes;
  }

  /** The type codes. */
  lemma TypeCodes(i: int, n: nat, s: string, items: seq<Value>, fields: seq<Field>)
    ensures [Tag(Null), Tag(Int(i)), Tag(Float(n)), Tag(Bool(n)), Tag(Str(s)), Tag(Blob(s)), Tag(Array(items)),
             Tag(Object(fields))] == [0, 1, 2, 3, 4, 5, 6, 7]
  {
  }

  /** The published FNV-1a values of "" and "a". */
  lemma PublishedHashes()
    ensures Storage.Mix(Storage.FNV_BASIS, "") == 0x811C_9DC5
    ensures Storage.Mix(Storage.FNV_BASIS, "a") == 0xE40C_292C
  {
    hide Storage.Step;
    StepOfLetter();
    MixesOne(0x811C_9DC5, 'a');
  }

  lemma MixesOne(h: nat, c: char)
    ensures Storage.Mix(h, []) == h && Storage.Mix(h, [c]) == Storage.Step(h, c)
  {
    hide Storage.Step;
    assert [c][1..] == [];
  }

  lemma StepOfLetter()
    ensures Storage.Step(0x811C_9DC5, 'a') == 0xE40C_292C
  {
    hide Storage.Xor;
    XorOfLetter();
    assert 'a' as int == 0x61 && 0x811C_9DC5 % 256 == 0xC5;
    assert ((0x811C_9D00 + 0xA4) * 16777619) % 0x1_0000_0000 == 0xE40C_292C;
  }

  lemma XorOfLetter()
    ensures Storage.Xor(0xC5, 0x61, 8) == 0xA4
  {
    hide Storage.Xor;
    XorBit(0xC5, 0x61, 8);
    XorBit(0x62, 0x30, 7);
    XorBit(0x31, 0x18, 6);
    XorBit(0x18, 0x0C, 5);
    XorBit(0x0C, 0x06, 4);
    XorBit(0x06, 0x03, 3);
    XorBit(0x03, 0x01, 2);
    XorBit(0x01, 0x00, 1);
  }

  lemma XorBit(a: nat, b: nat, bits: nat)
    requires bits > 0
    ensures Storage.Xor(a, b, bits) == (a + b) % 2 + 2 * Storage.Xor(a / 2, b / 2, bits - 1)
    ensures Storage.Xor(0, 0, 0) == 0
  {
  }
}
