/** What the base32 text of section 6 of RFC 4648 is, a decoder for it, and the arithmetic of a 32-bit accumulator
    that produces it. */
module Base32 {
  import opened Sequences
  import opened Wrappers

  const ALPHABET: string := "ABCDEFGHIJKLMNOPQRSTUVWXYZ234567"
  const WORD: nat := 0x1_0000_0000

  type Byte = b: int | 0 <= b < 256

  // --- what section 6 of RFC 4648 asks for ------------------------------------------------------

  /** The `n` low bits of a number, most significant first. */
  function Low(v: nat, n: nat): (r: seq<bool>)
    ensures |r| == n
  {
    if n == 0 then [] else Low(v / 2, n - 1) + [v % 2 == 1]
  }

  /** The input as one bit stream. */
  function Bits(bytes: seq<Byte>): (r: seq<bool>)
    ensures |r| == 8 * |bytes|
  {
    if bytes == [] then [] else Bits(bytes[..|bytes| - 1]) + Low(bytes[|bytes| - 1], 8)
  }

  /** The position of a character in the alphabet, looked for from position `from`. */
  function IndexFrom(c: char, from: nat): (i: Option<nat>)
    requires from <= 32
    ensures i.Some? ==> from <= i.value < 32 && ALPHABET[i.value] == c
    ensures i.None? ==> forall k :: from <= k < 32 ==> ALPHABET[k] != c
    decreases 32 - from
  {
    if from == 32 then None else if ALPHABET[from] == c then Some(from) else IndexFrom(c, from + 1)
  }

  function IndexOf(c: char): nat {
    match IndexFrom(c, 0) case Some(i) => i case None => 0
  }

  /** The bits an encoded text stands for: five per character. */
  function TextBits(text: string): (r: seq<bool>)
    ensures |r| == 5 * |text|
  {
    if text == "" then [] else TextBits(text[..|text| - 1]) + Low(IndexOf(text[|text| - 1]), 5)
  }

  function Zeros(n: nat): seq<bool> { seq(n, _ => false) }

  predicate InAlphabet(text: string) {
    forall i :: 0 <= i < |text| ==> IndexFrom(text[i], 0).Some?
  }

  /** `text` is the encoding of `bytes` with the padding characters dropped: its 5-bit groups are the bit
      stream, filled up on the right with fewer than five zero bits. */
  ghost predicate Encodes(text: string, bytes: seq<Byte>) {
    && InAlphabet(text)
    && exists pad: nat :: pad < 5 && TextBits(text) == Bits(bytes) + Zeros(pad)
  }

  // --- the accumulator --------------------------------------------------------------------------

  function Pow2(n: nat): (p: nat)
    ensures p > 0
  {
    if n == 0 then 1 else 2 * Pow2(n - 1)
  }

  lemma Powers()
    ensures Pow2(0) == 1 && Pow2(1) == 2 && Pow2(2) == 4 && Pow2(3) == 8 && Pow2(4) == 16 && Pow2(5) == 32
    ensures Pow2(6) == 64 && Pow2(7) == 128 && Pow2(8) == 256
  {
    assert Pow2(2) == 4 && Pow2(4) == 16 && Pow2(6) == 64;
  }

  function Halved(v: nat, n: nat): nat {
    if n == 0 then v else Halved(v / 2, n - 1)
  }

  lemma HalfThenQuotient(v: nat, p: nat)
    requires p > 0
    ensures v / 2 / p == v / (2 * p)
  {
    var q, r := v / 2 / p, v / 2 % p;
    assert v / 2 == q * p + r;
    var s := 2 * r + v % 2;
    assert v == q * (2 * p) + s && s < 2 * p;
    QuotientIs(v, 2 * p, q, s);
  }

  lemma QuotientIs(v: nat, d: nat, q: nat, s: nat)
    requires d > 0 && v == q * d + s && s < d
    ensures v / d == q
  {
    var k := v / d - q;
    assert k * d == s - v % d;
    MultipleIsFar(k, d);
  }

  lemma MultipleIsFar(k: int, d: nat)
    ensures k >= 1 ==> k * d >= d
    ensures k <= -1 ==> k * d + d <= 0
  {
    if k >= 1 {
      assert (k - 1) * d >= 0 && k * d == (k - 1) * d + d;
    } else if k <= -1 {
      assert (-k - 1) * d >= 0 && k * d == -(-k - 1) * d - d;
    }
  }

  lemma {:induction false} HalvedIsQuotient(v: nat, n: nat)
    ensures Halved(v, n) == v / Pow2(n)
  {
    if n > 0 {
      HalvedIsQuotient(v / 2, n - 1);
      HalfThenQuotient(v, Pow2(n - 1));
    }
  }

  /** The low bits split into an upper and a lower part. */
  lemma {:induction false} LowSplit(v: nat, a: nat, b: nat)
    ensures Low(v, a + b) == Low(Halved(v, b), a) + Low(v, b)
  {
    if b > 0 { LowSplit(v / 2, a, b - 1); }
  }

  /** Multiples of 2^n do not touch the `n` low bits. */
  lemma {:induction false} LowIgnores(v: nat, d: nat, n: nat)
    ensures Low(v + d * Pow2(n), n) == Low(v, n)
  {
    if n > 0 {
      var t := d * Pow2(n - 1);
      assert d * Pow2(n) == 2 * t;
      LowIgnores(v / 2, d, n - 1);
    }
  }

  /** Shifting a byte in keeps the live bits: at most 4 are live, so the 32-bit wrap drops none of them. */
  lemma ShiftIn(v: nat, n: nat, b: Byte)
    requires n <= 4 && v < WORD
    ensures Low(Shifted(v, b), n + 8) == Low(v, n) + Low(b, 8)
  {
    var w := Shifted(v, b);
    var q := v % 0x100_0000;
    assert w == q * 256 + b;
    Powers();
    LowSplit(w, n, 8);
    HalvedIsQuotient(w, 8);
    assert w / 256 == q;
    LowIgnores(b, q, 8);
    WrapKeepsLow(v, n);
  }

  lemma WrapKeepsLow(v: nat, n: nat)
    requires n <= 4
    ensures Low(v % 0x100_0000, n) == Low(v, n)
  {
    Powers();
    var q, d := v % 0x100_0000, v / 0x100_0000 * (0x100_0000 / Pow2(n));
    assert v == q + d * Pow2(n) by {
      if n == 0 {} else if n == 1 {} else if n == 2 {} else if n == 3 {} else {}
    }
    LowIgnores(q, d, n);
  }

  /** The five bits above the remaining `n` are the next group. */
  lemma ShiftOut(v: nat, n: nat)
    requires n <= 7
    ensures Low(v, n + 5) == Low(v / Pow2(n) % 32, 5) + Low(v, n)
  {
    Powers();
    LowSplit(v, 5, n);
    HalvedIsQuotient(v, n);
    FiveLow(v / Pow2(n));
  }

  lemma FiveLow(u: nat)
    ensures Low(u % 32, 5) == Low(u, 5)
  {
    Powers();
    LowIgnores(u % 32, u / 32, 5);
    assert u == u % 32 + u / 32 * 32;
  }

  lemma WrapThenMask(u: nat)
    ensures u % WORD % 32 == u % 32
  {
    assert u == u / WORD * 0x800_0000 * 32 + u % WORD;
  }

  /** `n` doublings in 32 bits. */
  function Doubled(v: nat, n: nat): nat
    decreases n
  {
    if n == 0 then v else Doubled(v * 2 % WORD, n - 1)
  }

  /** Taking the remainder before or after a multiplication makes no difference. */
  lemma WrapEarlier(v: nat, k: nat)
    ensures v % WORD * k % WORD == v * k % WORD
  {
    var q, r := v / WORD, v % WORD;
    var q', r' := r * k / WORD, r * k % WORD;
    assert v * k == (q * WORD + r) * k == (q * k) * WORD + r * k == (q * k + q') * WORD + r';
    RemainderIs(v * k, q * k + q', r', WORD);
  }

  lemma {:induction false} DoubledIsProduct(v: nat, n: nat)
    requires v < WORD
    ensures Doubled(v, n) == v * Pow2(n) % WORD
    decreases n
  {
    if n > 0 {
      DoubledIsProduct(v * 2 % WORD, n - 1);
      WrapEarlier(v * 2, Pow2(n - 1));
      assert v * 2 * Pow2(n - 1) == v * Pow2(n);
    }
  }

  /** The last bits, shifted to the left end of a group. */
  lemma LeftAlign(v: nat, n: nat)
    requires 1 <= n <= 4
    ensures Low(v * Pow2(5 - n) % WORD % 32, 5) == Low(v, n) + Zeros(5 - n)
  {
    var z := 5 - n;
    var u := v * Pow2(z);
    assert Low(u % WORD % 32, 5) == Low(u, 5) by {
      WrapThenMask(u);
      FiveLow(u);
    }
    LowSplit(u, n, z);
    assert Halved(u, z) == v by {
      HalvedIsQuotient(u, z);
      QuotientIs(u, Pow2(z), v, 0);
    }
    LowIgnores(0, v, z);
    LowZero(z);
  }

  lemma {:induction false} LowZero(n: nat)
    ensures Low(0, n) == Zeros(n)
  {
    if n > 0 { LowZero(n - 1); }
  }

  lemma AlphabetIsInjective(i: nat)
    requires i < 32
    ensures IndexFrom(ALPHABET[i], 0) == Some(i)
  {
    assert forall j, k :: 0 <= j < k < 32 ==> ALPHABET[j] != ALPHABET[k];
  }

  /** Table 3 of RFC 4648, section 6: the letters stand for 0 to 25, the digits 2 to 7 for 26 to 31. */
  lemma AlphabetIsLettersThenDigits(c: char, i: nat)
    ensures IndexFrom(c, 0) == Some(i) <==>
            i < 32 && c as int == if i < 26 then 'A' as int + i else '2' as int + (i - 26)
  {
    assert forall k :: 0 <= k < 26 ==> ALPHABET[k] as int == 'A' as int + k;
    assert forall k :: 26 <= k < 32 ==> ALPHABET[k] as int == '2' as int + (k - 26);
    if i < 32 { AlphabetIsInjective(i); }
  }

  lemma FourLow(v: nat)
    ensures Low(v, 4) == [v / 8 % 2 == 1, v / 4 % 2 == 1, v / 2 % 2 == 1, v % 2 == 1]
  {
    assert v / 2 / 2 == v / 4 && v / 4 / 2 == v / 8;
    assert Low(v / 4, 2) == [v / 8 % 2 == 1, v / 4 % 2 == 1];
  }

  lemma FiveLowBits(v: nat)
    ensures Low(v, 5) == [v / 16 % 2 == 1, v / 8 % 2 == 1, v / 4 % 2 == 1, v / 2 % 2 == 1, v % 2 == 1]
  {
    FourLow(v / 2);
    assert v / 2 / 2 == v / 4 && v / 2 / 4 == v / 8 && v / 2 / 8 == v / 16;
  }

  lemma EightLowBits(v: nat)
    ensures Low(v, 8) == [v / 128 % 2 == 1, v / 64 % 2 == 1, v / 32 % 2 == 1, v / 16 % 2 == 1,
                          v / 8 % 2 == 1, v / 4 % 2 == 1, v / 2 % 2 == 1, v % 2 == 1]
  {
    LowSplit(v, 4, 4);
    HalvedIsQuotient(v, 4);
    Powers();
    FourLow(v / 16);
    FourLow(v);
    assert v / 16 / 2 == v / 32 && v / 16 / 4 == v / 64 && v / 16 / 8 == v / 128;
  }

  lemma OneMoreSymbol(text: string, n: nat)
    requires n < |text|
    ensures TextBits(text[..n + 1]) == TextBits(text[..n]) + Low(IndexOf(text[n]), 5)
  {
    assert text[..n + 1][..n] == text[..n];
  }

  lemma BitsOfTwo(a: Byte, b: Byte)
    ensures Bits([a, b]) == Low(a, 8) + Low(b, 8)
  {
    assert [a, b][..1] == [a] && [a][..0] == [];
  }

  lemma TwoMoreSymbols(text: string, n: nat, bits: seq<bool>)
    requires n + 2 <= |text| && TextBits(text[..n]) == bits
    ensures TextBits(text[..n + 2]) == bits + Low(IndexOf(text[n]), 5) + Low(IndexOf(text[n + 1]), 5)
  {
    OneMoreSymbol(text, n);
    OneMoreSymbol(text, n + 1);
  }

  lemma TextOfFour(text: string)
    requires |text| == 4
    ensures TextBits(text) == Low(IndexOf(text[0]), 5) + Low(IndexOf(text[1]), 5) + Low(IndexOf(text[2]), 5) +
                              Low(IndexOf(text[3]), 5)
  {
    TwoMoreSymbols(text, 0, []);
    var bits := Low(IndexOf(text[0]), 5) + Low(IndexOf(text[1]), 5);
    assert [] + Low(IndexOf(text[0]), 5) == Low(IndexOf(text[0]), 5);
    TwoMoreSymbols(text, 2, bits);
    assert text[..4] == text;
  }

  lemma BitsOfFo(f: Byte, o: Byte)
    requires f == 'f' as int && o == 'o' as int
    ensures Bits([f, o]) == [false, true, true, false, false, true, true, false] +
                            [false, true, true, false, true, true, true, true]
  {
    BitsOfTwo(f, o);
    EightLowBits(f);
    EightLowBits(o);
  }

  lemma BitsOfGroups(m: nat, z: nat, x: nat, q: nat)
    requires m == 12 && z == 25 && x == 23 && q == 16
    ensures Low(m, 5) + Low(z, 5) + Low(x, 5) + Low(q, 5) ==
            [false, true, true, false, false, true, true, false] +
            [false, true, true, false, true, true, true, true] + Zeros(4)
  {
    FiveLowBits(m);
    FiveLowBits(z);
    FiveLowBits(x);
    FiveLowBits(q);
  }

  /** The vector "fo" of RFC 4648, section 10, without its padding. */
  lemma EncodesFo(text: string, f: Byte, o: Byte)
    requires text == "MZXQ" && f == 'f' as int && o == 'o' as int
    ensures Encodes(text, [f, o])
  {
    AlphabetIsLettersThenDigits(text[0], 12);
    AlphabetIsLettersThenDigits(text[1], 25);
    AlphabetIsLettersThenDigits(text[2], 23);
    AlphabetIsLettersThenDigits(text[3], 16);
    TextOfFour(text);
    BitsOfFo(f, o);
    BitsOfGroups(IndexOf(text[0]), IndexOf(text[1]), IndexOf(text[2]), IndexOf(text[3]));
    assert TextBits(text) == Bits([f, o]) + Zeros(4);
  }

  lemma AppendSymbol(out: string, i: nat)
    requires InAlphabet(out) && i < 32
    ensures InAlphabet(out + [ALPHABET[i]])
    ensures TextBits(out + [ALPHABET[i]]) == TextBits(out) + Low(i, 5)
  {
    AlphabetIsInjective(i);
    assert (out + [ALPHABET[i]])[..|out|] == out;
  }

  /** The value of `(value << 8) | byte`. */
  function Shifted(value: nat, byte: Byte): (r: nat)
    requires value < WORD
    ensures r < WORD
  {
    value * 256 % WORD + byte
  }

  /** The value of `(value >>> n) & 0x1f`. */
  function Group(value: nat, n: nat): (r: nat)
    ensures r < 32
  {
    value / Pow2(n) % 32
  }

  /** The value of `(value << n) & 0x1f`. */
  function LastGroup(value: nat, n: nat): (r: nat)
    ensures r < 32
  {
    Doubled(value, n) % 32
  }

  lemma RemainderIs(v: nat, top: nat, rest: nat, d: nat)
    requires 0 < d && rest < d && v == top * d + rest
    ensures v % d == rest && v / d == top
  {
    QuotientIs(v, d, top, rest);
  }

  // --- the invariant of the encoder --------------------------------------------------------------

  /** The invariant of the encoder: `stream` is what has been written followed by the live bits. */
  ghost predicate Conserved(out: string, value: nat, bits: nat, stream: seq<bool>) {
    value < WORD && InAlphabet(out) && TextBits(out) + Low(value, bits) == stream
  }

  /** Writing out the five topmost live bits. */
  lemma EmitGroup(out: string, value: nat, n: nat, stream: seq<bool>)
    requires n <= 7 && Conserved(out, value, n + 5, stream)
    ensures Conserved(out + [ALPHABET[Group(value, n)]], value, n, stream)
  {
    ShiftOut(value, n);
    AppendSymbol(out, Group(value, n));
    Associate(TextBits(out), Low(Group(value, n), 5), Low(value, n));
  }

  /** Writing out the last, incomplete group. */
  lemma EmitLast(out: string, value: nat, n: nat, bytes: seq<Byte>)
    requires 1 <= n <= 4 && Conserved(out, value, n, Bits(bytes))
    ensures Encodes(out + [ALPHABET[LastGroup(value, 5 - n)]], bytes)
  {
    var symbol := LastGroup(value, 5 - n);
    DoubledIsProduct(value, 5 - n);
    LeftAlign(value, n);
    AppendSymbol(out, symbol);
    Associate(TextBits(out), Low(value, n), Zeros(5 - n));
  }

  lemma BitsSnoc(bytes: seq<Byte>, byte: Byte)
    ensures Bits(bytes + [byte]) == Bits(bytes) + Low(byte, 8)
  {
    assert (bytes + [byte])[..|bytes|] == bytes;
  }

  lemma ReadByte(out: string, value: nat, n: nat, bytes: seq<Byte>, i: nat)
    requires n <= 4 && i < |bytes| && Conserved(out, value, n, Bits(bytes[..i]))
    ensures Conserved(out, Shifted(value, bytes[i]), n + 8, Bits(bytes[..i + 1]))
  {
    var front, byte := bytes[..i], bytes[i];
    ShiftIn(value, n, byte);
    Associate(TextBits(out), Low(value, n), Low(byte, 8));
    assert bytes[..i + 1] == front + [byte];
    BitsSnoc(front, byte);
  }

  lemma LengthIs(out: string, bytes: seq<Byte>)
    requires Encodes(out, bytes)
    ensures |out| == (8 * |bytes| + 4) / 5
  {
    var pad: nat :| pad < 5 && TextBits(out) == Bits(bytes) + Zeros(pad);
    assert 5 * |out| == 8 * |bytes| + pad;
  }

  // --- decoding ---------------------------------------------------------------------------------

  function Number(bits: seq<bool>): nat {
    if bits == [] then 0 else 2 * Number(bits[..|bits| - 1]) + if bits[|bits| - 1] then 1 else 0
  }

  lemma {:induction false} NumberBounded(bits: seq<bool>)
    ensures Number(bits) < Pow2(|bits|)
  {
    if bits != [] { NumberBounded(bits[..|bits| - 1]); }
  }

  /** The whole bytes of a bit stream; what is left over is filling. */
  function BytesOf(bits: seq<bool>): seq<Byte>
    decreases |bits|
  {
    if |bits| < 8 then []
    else
      NumberBounded(bits[..8]);
      Powers();
      [Number(bits[..8])] + BytesOf(bits[8..])
  }

  function Decode(text: string): seq<Byte> { BytesOf(TextBits(text)) }

  lemma {:induction false} NumberOfLow(v: nat, n: nat)
    requires v < Pow2(n)
    ensures Number(Low(v, n)) == v
  {
    if n > 0 {
      NumberOfLow(v / 2, n - 1);
      assert Low(v, n)[..n - 1] == Low(v / 2, n - 1);
    }
  }

  lemma {:induction false} BitsFirst(bytes: seq<Byte>)
    requires bytes != []
    ensures Bits(bytes) == Low(bytes[0], 8) + Bits(bytes[1..])
  {
    if |bytes| > 1 {
      var init := bytes[..|bytes| - 1];
      BitsFirst(init);
      assert init[1..] == bytes[1..][..|bytes| - 2];
    } else {
      assert Bits(bytes[..0]) == [];
    }
  }

  lemma FirstByte(byte: Byte, rest: seq<bool>)
    ensures BytesOf(Low(byte, 8) + rest) == [byte] + BytesOf(rest)
  {
    var all := Low(byte, 8) + rest;
    assert all[..8] == Low(byte, 8) && all[8..] == rest;
    Powers();
    NumberOfLow(byte, 8);
  }

  lemma {:induction false} BytesReadBack(bytes: seq<Byte>, rest: seq<bool>)
    requires |rest| < 8
    ensures BytesOf(Bits(bytes) + rest) == bytes
    decreases |bytes|
  {
    if bytes != [] {
      BitsFirst(bytes);
      BytesReadBack(bytes[1..], rest);
      Associate(Low(bytes[0], 8), Bits(bytes[1..]), rest);
      FirstByte(bytes[0], Bits(bytes[1..]) + rest);
      assert bytes == [bytes[0]] + bytes[1..];
    }
  }

  /** Decoding recovers the bytes from any encoding of them; the encoding is therefore injective. */
  lemma DecodeRecovers(text: string, bytes: seq<Byte>)
    requires Encodes(text, bytes)
    ensures Decode(text) == bytes
  {
    var pad: nat :| pad < 5 && TextBits(text) == Bits(bytes) + Zeros(pad);
    BytesReadBack(bytes, Zeros(pad));
  }

  /** There is only one encoding: the specification leaves the encoder no choice. */
  lemma EncodingIsUnique(a: string, b: string, bytes: seq<Byte>)
    requires Encodes(a, bytes) && Encodes(b, bytes)
    ensures a == b
  {
    LengthIs(a, bytes);
    LengthIs(b, bytes);
    var p: nat :| p < 5 && TextBits(a) == Bits(bytes) + Zeros(p);
    var q: nat :| q < 5 && TextBits(b) == Bits(bytes) + Zeros(q);
    assert |TextBits(a)| == 8 * |bytes| + p && |TextBits(b)| == 8 * |bytes| + q;
    SameBitsSameText(a, b);
  }

  lemma SameLast(s: seq<bool>, i: nat, t: seq<bool>, j: nat)
    requires i < 32 && j < 32 && |s| == |t| && s + Low(i, 5) == t + Low(j, 5)
    ensures s == t && i == j
  {
    assert (s + Low(i, 5))[..|s|] == s && (t + Low(j, 5))[..|t|] == t;
    assert (s + Low(i, 5))[|s|..] == Low(i, 5) && (t + Low(j, 5))[|t|..] == Low(j, 5);
    Powers();
    NumberOfLow(i, 5);
    NumberOfLow(j, 5);
  }

  lemma {:induction false} SameBitsSameText(a: string, b: string)
    requires InAlphabet(a) && InAlphabet(b) && |a| == |b| && TextBits(a) == TextBits(b)
    ensures a == b
  {
    if a != "" {
      var n := |a| - 1;
      var i, j := IndexOf(a[n]), IndexOf(b[n]);
      SameLast(TextBits(a[..n]), i, TextBits(b[..n]), j);
      SameBitsSameText(a[..n], b[..n]);
      assert a[n] == ALPHABET[i] == b[n];
      assert a == a[..n] + [a[n]] && b == b[..n] + [b[n]];
    }
  }
}
