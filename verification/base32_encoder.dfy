/** The base32 encoder of personal access tokens. It works on a 32-bit pattern; its operators are shown to be
    arithmetic on the unsigned value of the pattern: `value << n` is a product taken modulo 2^32, `>>>` a quotient,
    `& 0x1f` a remainder, and the `|` that shifts a byte in a sum. */
module Base32Encoder {
  import opened Base32

  // --- from 32-bit patterns to their values -------------------------------------------------------

  /** What left shifts do to the value, told by the bits that drop out at the top. */
  lemma LeftByEight(v: bv32)
    ensures v as nat * 256 == (v >> 24) as nat * WORD + (v << 8) as nat
  {
    Halves24(v);
    Times256(v & 0xFF_FFFF);
  }

  lemma Halves24(v: bv32)
    ensures v as nat == (v >> 24) as nat * 0x100_0000 + (v & 0xFF_FFFF) as nat
    ensures v << 8 == (v & 0xFF_FFFF) << 8 && v & 0xFF_FFFF < 0x100_0000
  {
  }

  lemma Times256(v: bv32)
    requires v < 0x100_0000
    ensures (v << 8) as nat == v as nat * 256
  {
  }

  lemma OrIsSum(v: bv32, b: bv8)
    ensures ((v << 8) | (b as bv32)) as nat == (v << 8) as nat + b as nat
  {
  }

  /** `(value << 8) | byte` */
  function ByteIn(v: bv32, b: bv8): bv32 {
    (v << 8) | (b as bv32)
  }

  lemma ShiftedBits(v: bv32, b: bv8)
    ensures ByteIn(v, b) as nat == Shifted(v as nat, b as nat)
  {
    LeftByEight(v);
    OrIsSum(v, b);
    RemainderIs(v as nat * 256, (v >> 24) as nat, (v << 8) as nat, WORD);
  }

  lemma Times32(u: bv32)
    requires u < 0x800_0000
    ensures (u << 5) as nat == u as nat * 32
  {
  }

  lemma PlusFive(u: bv32, r: bv5)
    ensures ((u << 5) | (r as bv32)) as nat == (u << 5) as nat + r as nat
  {
  }

  lemma LowFive(v: bv32)
    ensures v == ((v >> 5) << 5) | (((v & 0x1f) as bv5) as bv32) && v >> 5 < 0x800_0000
    ensures ((v & 0x1f) as bv5) as nat == (v & 0x1f) as nat
  {
  }

  lemma Composed5(v: bv32, u: bv32, r: bv5)
    requires u < 0x800_0000 && v == (u << 5) | (r as bv32)
    ensures r as nat == v as nat % 32
  {
    Times32(u);
    PlusFive(u, r);
    RemainderIs(v as nat, u as nat, r as nat, 32);
  }

  lemma MaskIsRemainder(v: bv32)
    ensures (v & 0x1f) as nat == v as nat % 32
  {
    LowFive(v);
    Composed5(v, v >> 5, (v & 0x1f) as bv5);
  }

  lemma Times2(u: bv32)
    requires u < 0x8000_0000
    ensures (u << 1) as nat == u as nat * 2
  {
  }

  lemma PlusOne(u: bv32, r: bv1)
    ensures ((u << 1) | (r as bv32)) as nat == (u << 1) as nat + r as nat
  {
  }

  lemma LowOne(v: bv32)
    ensures v == ((v >> 1) << 1) | (((v & 1) as bv1) as bv32) && v >> 1 < 0x8000_0000
  {
  }

  lemma Composed1(v: bv32, u: bv32, r: bv1)
    requires u < 0x8000_0000 && v == (u << 1) | (r as bv32)
    ensures u as nat == v as nat / 2
  {
    Times2(u);
    PlusOne(u, r);
    RemainderIs(v as nat, u as nat, r as nat, 2);
  }

  lemma HalfIsQuotient(v: bv32)
    ensures (v >> 1) as nat == v as nat / 2
  {
    LowOne(v);
    Composed1(v, v >> 1, (v & 1) as bv1);
  }

  /** `value >>> n`, as `n` shifts by one. */
  function ShiftRight(v: bv32, n: nat): bv32 {
    if n == 0 then v else ShiftRight(v >> 1, n - 1)
  }

  /** `value << n`, as `n` shifts by one. */
  function ShiftLeft(v: bv32, n: nat): bv32
    decreases n
  {
    if n == 0 then v else ShiftLeft(v << 1, n - 1)
  }

  lemma {:induction false} RightIsQuotient(v: bv32, n: nat)
    ensures ShiftRight(v, n) as nat == v as nat / Pow2(n)
  {
    if n > 0 {
      HalfIsQuotient(v);
      RightIsQuotient(v >> 1, n - 1);
      HalfThenQuotient(v as nat, Pow2(n - 1));
    }
  }

  /** `(value >>> n) & 0x1f` */
  lemma GroupBits(v: bv32, n: nat)
    ensures (ShiftRight(v, n) & 0x1f) as nat == Group(v as nat, n)
  {
    RightIsQuotient(v, n);
    MaskIsRemainder(ShiftRight(v, n));
  }

  lemma DoubleIsProduct(v: bv32)
    ensures (v << 1) as nat == v as nat * 2 % WORD
  {
    assert v as nat * 2 == (v >> 31) as nat * WORD + (v << 1) as nat;
    RemainderIs(v as nat * 2, (v >> 31) as nat, (v << 1) as nat, WORD);
  }

  lemma {:induction false} LeftIsProduct(v: bv32, n: nat)
    ensures ShiftLeft(v, n) as nat == Doubled(v as nat, n)
    decreases n
  {
    if n > 0 {
      DoubleIsProduct(v);
      LeftIsProduct(v << 1, n - 1);
    }
  }

  /** `(value << n) & 0x1f` */
  lemma LastBits(v: bv32, n: nat)
    ensures (ShiftLeft(v, n) & 0x1f) as nat == LastGroup(v as nat, n)
  {
    LeftIsProduct(v, n);
    MaskIsRemainder(ShiftLeft(v, n));
  }

  // --- the encoder --------------------------------------------------------------------------------

  /** The character of the five low bits. */
  function Symbol(v: bv32): char {
    MaskIsRemainder(v);
    ALPHABET[(v & 0x1f) as nat]
  }

  function Values(bytes: seq<bv8>): (r: seq<Byte>)
    ensures |r| == |bytes|
  {
    seq(|bytes|, i requires 0 <= i < |bytes| => bytes[i] as nat)
  }

  /** The unsigned value of a pattern, bit by bit. */
  function Unsigned(v: bv32): nat {
    if v == 0 then 0 else 2 * Unsigned(v >> 1) + if v & 1 == 1 then 1 else 0
  }

  lemma {:induction false} UnsignedIs(v: bv32)
    ensures Unsigned(v) == v as nat
  {
    if v != 0 {
      UnsignedIs(v >> 1);
      UnsignedStep(v, v >> 1);
    }
  }

  lemma {:induction false} UnsignedStep(v: bv32, h: bv32)
    requires v != 0 && h == v >> 1 && Unsigned(h) == h as nat
    ensures Unsigned(v) == v as nat
  {
    TwoHalves(v, Unsigned(h));
  }

  lemma TwoHalves(v: bv32, half: nat)
    requires half == (v >> 1) as nat
    ensures v as nat == 2 * half + if v & 1 == 1 then 1 else 0
  {
    LowOne(v);
    Doubled1(v, v >> 1, (v & 1) as bv1);
    OddBit(v);
  }

  lemma Doubled1(v: bv32, u: bv32, r: bv1)
    requires u < 0x8000_0000 && v == (u << 1) | (r as bv32)
    ensures v as nat == 2 * (u as nat) + r as nat
  {
    Times2(u);
    PlusOne(u, r);
  }

  lemma OddBit(v: bv32)
    ensures (if v & 1 == 1 then 1 else 0) == ((v & 1) as bv1) as nat
  {
  }

  /** What is written, followed by the `bits` live bits of the accumulator, is the stream. */
  ghost predicate Encoding(out: string, value: bv32, bits: nat, stream: seq<bool>) {
    Conserved(out, Unsigned(value), bits, stream)
  }

  /** The bits of the first `i` bytes. */
  function Stream(bytes: seq<bv8>, i: nat): seq<bool>
    requires i <= |bytes|
  {
    Bits(Values(bytes)[..i])
  }

  lemma NothingRead(bytes: seq<bv8>)
    ensures Encoding("", 0, 0, Stream(bytes, 0))
  {
    assert Values(bytes)[..0] == [];
  }

  lemma AllRead(bytes: seq<bv8>)
    ensures Values(bytes)[..|bytes|] == Values(bytes)
  {
  }

  lemma GroupSymbol(v: bv32, n: nat)
    ensures Symbol(ShiftRight(v, n)) == ALPHABET[Group(v as nat, n)]
  {
    GroupBits(v, n);
  }

  lemma LastSymbol(v: bv32, n: nat)
    ensures Symbol(ShiftLeft(v, n)) == ALPHABET[LastGroup(v as nat, n)]
  {
    LastBits(v, n);
  }

  /** Shifting in one more byte. */
  lemma ReadBits(out: string, value: bv32, n: nat, bytes: seq<bv8>, i: nat)
    requires n <= 4 && i < |bytes| && Encoding(out, value, n, Stream(bytes, i))
    ensures Encoding(out, ByteIn(value, bytes[i]), n + 8, Stream(bytes, i + 1))
  {
    UnsignedIs(value);
    UnsignedIs(ByteIn(value, bytes[i]));
    ReadByte(out, value as nat, n, Values(bytes), i);
    ShiftedBits(value, bytes[i]);
  }

  /** Writing `(value >>> n) & 0x1f`. */
  lemma EmitBits(out: string, value: bv32, n: nat, stream: seq<bool>)
    requires n <= 7 && Encoding(out, value, n + 5, stream)
    ensures Encoding(out + [Symbol(ShiftRight(value, n))], value, n, stream)
  {
    UnsignedIs(value);
    GroupSymbol(value, n);
    EmitGroup(out, value as nat, n, stream);
  }

  /** Writing `(value << (5 - n)) & 0x1f`. */
  lemma EmitLastBits(out: string, value: bv32, n: nat, bytes: seq<bv8>)
    requires 1 <= n <= 4 && Encoding(out, value, n, Stream(bytes, |bytes|))
    ensures Encodes(out + [Symbol(ShiftLeft(value, 5 - n))], Values(bytes))
  {
    AllRead(bytes);
    UnsignedIs(value);
    LastSymbol(value, 5 - n);
    EmitLast(out, value as nat, n, Values(bytes));
  }

  lemma NothingLeft(out: string, value: bv32, bytes: seq<bv8>)
    requires Encoding(out, value, 0, Stream(bytes, |bytes|))
    ensures Encodes(out, Values(bytes))
  {
    AllRead(bytes);
    assert TextBits(out) == Bits(Values(bytes)) + Zeros(0);
  }

  /** The inner loop: writes groups while five bits are live. */
  method EmitGroups(bitsIn: nat, value: bv32, outIn: string, ghost stream: seq<bool>) returns (bits: nat, out: string)
    requires bitsIn <= 12 && Encoding(outIn, value, bitsIn, stream)
    ensures bits <= 4 && Encoding(out, value, bits, stream)
  {
    bits, out := bitsIn, outIn;
    while bits >= 5
      invariant bits <= 12 && Encoding(out, value, bits, stream)
    {
      bits := bits - 5;
      EmitBits(out, value, bits, stream);
      out := out + [Symbol(ShiftRight(value, bits))];
    }
  }

  /** The encoder. */
  method EncodeBase32(bytes: seq<bv8>) returns (out: string)
    ensures Encodes(out, Values(bytes))
    ensures |out| == (8 * |bytes| + 4) / 5
  {
    var bits: nat, value: bv32 := 0, 0;
    out := "";
    NothingRead(bytes);
    for i := 0 to |bytes|
      invariant bits <= 4 && Encoding(out, value, bits, Stream(bytes, i))
    {
      ReadBits(out, value, bits, bytes, i);
      value := ByteIn(value, bytes[i]);
      bits := bits + 8;
      bits, out := EmitGroups(bits, value, out, Stream(bytes, i + 1));
    }
    if bits > 0 {
      EmitLastBits(out, value, bits, bytes);
      out := out + [Symbol(ShiftLeft(value, 5 - bits))];
    } else {
      NothingLeft(out, value, bytes);
    }
    LengthIs(out, Values(bytes));
  }
}
