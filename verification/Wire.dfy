/** Big-endian integers on the wire. */
module Wire {
  import opened Machine
  import opened Arith

  type Bytes = seq<u8>

  // ---------------------------------------------------------------- decoders

  /** The number a string of bytes spells, most significant first. */
  function Value(b: Bytes): nat {
    if b == [] then 0 else Value(b[..|b| - 1]) * 256 + b[|b| - 1]
  }

  function Pow256(n: nat): nat {
    if n == 0 then 1 else 256 * Pow256(n - 1)
  }

  function Be16(p: Bytes, i: nat): u16
    requires i + 2 <= |p|
  {
    ValueBound(p[i..i + 2]);
    Powers();
    Value(p[i..i + 2])
  }

  function Be32(p: Bytes, i: nat): u32
    requires i + 4 <= |p|
  {
    ValueBound(p[i..i + 4]);
    Powers();
    Value(p[i..i + 4])
  }

  function Be48(p: Bytes, i: nat): u64
    requires i + 6 <= |p|
  {
    ValueBound(p[i..i + 6]);
    Powers();
    Value(p[i..i + 6])
  }

  function Be64(p: Bytes, i: nat): u64
    requires i + 8 <= |p|
  {
    ValueBound(p[i..i + 8]);
    Powers();
    Value(p[i..i + 8])
  }

  lemma Powers()
    ensures Pow256(2) == 0x1_0000 && Pow256(4) == TWO_32
    ensures Pow256(6) == 0x1_0000_0000_0000 && Pow256(8) == TWO_64
  {
    assert Pow256(2) == 256 * Pow256(1) && Pow256(4) == 256 * Pow256(3);
    assert Pow256(6) == 256 * Pow256(5) && Pow256(8) == 256 * Pow256(7);
  }

  lemma {:induction false} ValueBound(b: Bytes)
    ensures Value(b) < Pow256(|b|)
    decreases |b|
  {
    if b != [] {
      ValueBound(b[..|b| - 1]);
    }
  }

  lemma ValueSlice(p: Bytes, i: nat, j: nat)
    requires i < j <= |p|
    ensures Value(p[i..j]) == Value(p[i..j - 1]) * 256 + p[j - 1]
  {
    assert p[i..j][..j - i - 1] == p[i..j - 1];
  }

  /** The decoders' expressions. Shifted bytes and halves occupy disjoint bits, so their
      `|` is addition. */
  lemma ShiftedBytes(p: Bytes, i: nat)
    requires i + 4 <= |p|
    ensures Be16(p, i) == (p[i] as int) * 0x100 + p[i + 1]
    ensures Be32(p, i)
         == (p[i] as int) * 0x100_0000 + (p[i + 1] as int) * 0x1_0000 + (p[i + 2] as int) * 0x100 + p[i + 3]
  {
    assert p[i..i] == [];
    ValueSlice(p, i, i + 1);
    ValueSlice(p, i, i + 2);
    ValueSlice(p, i, i + 3);
    ValueSlice(p, i, i + 4);
  }

  lemma ShiftedHalves(p: Bytes, i: nat)
    requires i + 8 <= |p|
    ensures Be48(p, i) == Be16(p, i) * TWO_32 + Be32(p, i + 2)
    ensures Be64(p, i) == Be32(p, i) * TWO_32 + Be32(p, i + 4)
  {
    ShiftedBytes(p, i + 2);
    ShiftedBytes(p, i + 4);
    ValueSlice(p, i, i + 3);
    ValueSlice(p, i, i + 4);
    ValueSlice(p, i, i + 5);
    ValueSlice(p, i, i + 6);
    ValueSlice(p, i, i + 7);
    ValueSlice(p, i, i + 8);
  }

  // ---------------------------------------------------------------- encoders

  /** `x >> 8k`. */
  function ShiftRight(x: nat, k: nat): nat {
    if k == 0 then x else ShiftRight(x, k - 1) / 256
  }

  /** The low n bytes of x, most significant first. */
  function BigEndian(x: nat, n: nat): (b: Bytes)
    ensures |b| == n
  {
    seq(n, i requires 0 <= i < n => ShiftRight(x, n - 1 - i) % 256)
  }

  /** The encoders' loop: shift right by 8(n-1), ..., 8, 0 and keep the low byte. */
  method PutBe(v: Bytes, x: nat, n: nat) returns (out: Bytes)
    ensures out == v + BigEndian(x, n)
  {
    out := v;
    var k := n;
    while k > 0
      invariant 0 <= k <= n
      invariant out == v + BigEndian(x, n)[..n - k]
    {
      k := k - 1;
      out := out + [ShiftRight(x, k) % 256];
    }
  }

  // ---------------------------------------------------------------- mirror images

  lemma {:induction false} Pow256Positive(n: nat)
    ensures Pow256(n) > 0
  {
    if n > 0 {
      Pow256Positive(n - 1);
    }
  }

  lemma {:induction false} ShiftFirst(x: nat, k: nat)
    ensures ShiftRight(x / 256, k) == ShiftRight(x, k + 1)
    decreases k
  {
    if k > 0 {
      ShiftFirst(x, k - 1);
    }
  }

  lemma HighBytes(x: nat, n: nat)
    requires n > 0
    ensures BigEndian(x, n)[..n - 1] == BigEndian(x / 256, n - 1)
    ensures BigEndian(x, n)[n - 1] == x % 256
  {
    assert BigEndian(x, n)[n - 1] == ShiftRight(x, 0) % 256;
    forall i | 0 <= i < n - 1
      ensures BigEndian(x, n)[i] == BigEndian(x / 256, n - 1)[i]
    {
      ShiftFirst(x, n - 2 - i);
    }
  }

  lemma {:induction false} ValueOfBigEndian(x: nat, n: nat)
    ensures Pow256(n) > 0 && Value(BigEndian(x, n)) == x % Pow256(n)
    decreases n
  {
    Pow256Positive(n);
    if n > 0 {
      HighBytes(x, n);
      ValueOfBigEndian(x / 256, n - 1);
      ModSplit(x, 256, Pow256(n - 1));
    }
  }

  /** Each decoder gives back what its encoder was given, cut to the field's width. */
  lemma DecodedField(p: Bytes, i: nat, x: nat, n: nat)
    requires n == 2 || n == 4 || n == 6 || n == 8
    requires i + n <= |p| && p[i..i + n] == BigEndian(x, n)
    ensures n == 2 ==> Be16(p, i) == x % 0x1_0000
    ensures n == 4 ==> Be32(p, i) == x % TWO_32
    ensures n == 6 ==> Be48(p, i) == x % 0x1_0000_0000_0000
    ensures n == 8 ==> Be64(p, i) == x % TWO_64
  {
    Powers();
    ValueOfBigEndian(x, n);
  }

  lemma DecodedU64(p: Bytes, i: nat, x: u64)
    requires i + 8 <= |p| && p[i..i + 8] == BigEndian(x, 8)
    ensures Be64(p, i) == x
  {
    DecodedField(p, i, x, 8);
    SmallMod(x, TWO_64);
  }

  lemma DecodedU32(p: Bytes, i: nat, x: u32)
    requires i + 4 <= |p| && p[i..i + 4] == BigEndian(x, 4)
    ensures Be32(p, i) == x
  {
    DecodedField(p, i, x, 4);
    SmallMod(x, TWO_32);
  }

  lemma DecodedU16(p: Bytes, i: nat, x: u16)
    requires i + 2 <= |p| && p[i..i + 2] == BigEndian(x, 2)
    ensures Be16(p, i) == x
  {
    DecodedField(p, i, x, 2);
    SmallMod(x, 0x1_0000);
  }
}
