/** The ISA tables, the field widths and the small integer helpers shared by
    the assembler and the executor (common_booth.py). */
module Common {
  import opened Wrappers

  // Field widths of the 16-bit instruction word.
  const TotalBitLength: nat := 16
  const OpBitLength: nat := 4
  const RBitLength: nat := 3
  const FunctBitLength: nat := 3
  const ImmedBitLength: nat := 6

  /** Opcodes of the I-type mnemonics; the R-type opcode is 0. */
  const Opcodes: map<string, nat> :=
    map["lw" := 1, "sw" := 2, "li" := 3, "lui" := 4, "ori" := 5, "andi" := 6, "addi" := 7]

  /** Function codes of the R-type mnemonics. */
  const Functs: map<string, nat> :=
    map["add" := 0, "sub" := 1, "bth" := 2, "sll" := 3, "srl" := 4, "mult" := 5]

  /** Register names and their 3-bit indices. */
  const Registers: map<string, nat> :=
    map["s0" := 0, "r1" := 1, "r2" := 2, "r3" := 3, "r4" := 4, "r5" := 5, "r6" := 6, "r7" := 7]

  /** A register index as it appears in a 3-bit field. */
  type Reg = i: nat | i < 8

  /** The opcode table is injective and every opcode is a nonzero 4-bit code. */
  lemma OpcodesWellFormed()
    ensures forall a, b :: a in Opcodes && b in Opcodes && Opcodes[a] == Opcodes[b] ==> a == b
    ensures forall a :: a in Opcodes ==> 1 <= Opcodes[a] <= 7 && Opcodes[a] < Pow2(OpBitLength)
    ensures Opcodes.Values == {1, 2, 3, 4, 5, 6, 7}
  {
    Pow2Values();
    assert Opcodes["lw"] == 1 && Opcodes["sw"] == 2 && Opcodes["li"] == 3 && Opcodes["lui"] == 4;
    assert Opcodes["ori"] == 5 && Opcodes["andi"] == 6 && Opcodes["addi"] == 7;
  }

  /** The funct table is injective and every funct fits in 3 bits. */
  lemma FunctsWellFormed()
    ensures forall a, b :: a in Functs && b in Functs && Functs[a] == Functs[b] ==> a == b
    ensures forall a :: a in Functs ==> Functs[a] <= 5 && Functs[a] < Pow2(FunctBitLength)
    ensures Functs.Values == {0, 1, 2, 3, 4, 5}
  {
    Pow2Values();
    assert Functs["add"] == 0 && Functs["sub"] == 1 && Functs["bth"] == 2;
    assert Functs["sll"] == 3 && Functs["srl"] == 4 && Functs["mult"] == 5;
  }

  /** The register table is a bijection between its eight names and 0..7. */
  lemma RegistersWellFormed()
    ensures forall a, b :: a in Registers && b in Registers && Registers[a] == Registers[b] ==> a == b
    ensures forall a :: a in Registers ==> Registers[a] < Pow2(RBitLength)
    ensures Registers.Values == {0, 1, 2, 3, 4, 5, 6, 7}
  {
    Pow2Values();
    assert Registers["s0"] == 0 && Registers["r1"] == 1 && Registers["r2"] == 2 && Registers["r3"] == 3;
    assert Registers["r4"] == 4 && Registers["r5"] == 5 && Registers["r6"] == 6 && Registers["r7"] == 7;
  }

  /** RegisterName inverts the register table. */
  lemma RegisterNameOf(name: string)
    requires name in Registers
    ensures RegisterName(Registers[name]) == name
  {
    RegistersWellFormed();
  }

  /** Every opcode is a nonzero 4-bit code. */
  lemma OpcodesFit()
    ensures forall a :: a in Opcodes ==> 1 <= Opcodes[a] < Pow2(OpBitLength)
  {
    Pow2Values();
  }

  /** Every funct fits in 3 bits. */
  lemma FunctsFit()
    ensures forall a :: a in Functs ==> Functs[a] < Pow2(FunctBitLength)
  {
    Pow2Values();
  }

  /** Every register index fits in 3 bits. */
  lemma RegistersFit()
    ensures forall a :: a in Registers ==> Registers[a] < 8
  {
  }

  /** The executor's reverse lookup `op_keys[opcodes.values().index(code)]`,
      which fails (a ValueError) when no mnemonic has that code. */
  function OpcodeName(code: int): (r: Option<string>)
    ensures r.Some? <==> code in Opcodes.Values
    ensures r.Some? ==> r.value in Opcodes && Opcodes[r.value] == code
  {
    assert Opcodes["lw"] == 1 && Opcodes["sw"] == 2 && Opcodes["li"] == 3 && Opcodes["lui"] == 4;
    assert Opcodes["ori"] == 5 && Opcodes["andi"] == 6 && Opcodes["addi"] == 7;
    assert Opcodes.Values == {1, 2, 3, 4, 5, 6, 7} by {
      OpcodesWellFormed();
    }
    if code == 1 then Some("lw") else if code == 2 then Some("sw")
    else if code == 3 then Some("li") else if code == 4 then Some("lui")
    else if code == 5 then Some("ori") else if code == 6 then Some("andi")
    else if code == 7 then Some("addi") else None
  }

  /** `funct_keys[functs.values().index(code)]`. */
  function FunctName(code: int): (r: Option<string>)
    ensures r.Some? <==> code in Functs.Values
    ensures r.Some? ==> r.value in Functs && Functs[r.value] == code
  {
    assert Functs["add"] == 0 && Functs["sub"] == 1 && Functs["bth"] == 2;
    assert Functs["sll"] == 3 && Functs["srl"] == 4 && Functs["mult"] == 5;
    assert Functs.Values == {0, 1, 2, 3, 4, 5} by {
      FunctsWellFormed();
    }
    if code == 0 then Some("add") else if code == 1 then Some("sub")
    else if code == 2 then Some("bth") else if code == 3 then Some("sll")
    else if code == 4 then Some("srl") else if code == 5 then Some("mult") else None
  }

  /** `reg_keys[registers.values().index(index)]`, which always succeeds on a
      3-bit field. */
  function RegisterName(index: Reg): (r: string)
    ensures r in Registers && Registers[r] == index
  {
    assert Registers["s0"] == 0 && Registers["r1"] == 1 && Registers["r2"] == 2 && Registers["r3"] == 3;
    assert Registers["r4"] == 4 && Registers["r5"] == 5 && Registers["r6"] == 6 && Registers["r7"] == 7;
    if index == 0 then "s0" else if index == 1 then "r1" else if index == 2 then "r2"
    else if index == 3 then "r3" else if index == 4 then "r4" else if index == 5 then "r5"
    else if index == 6 then "r6" else "r7"
  }

  // ---------------------------------------------------------------------
  // Powers of two and division facts

  function Pow2(n: nat): (p: int)
    ensures p >= 1
  {
    if n == 0 then 1 else 2 * Pow2(n - 1)
  }

  lemma Pow2Values()
    ensures Pow2(1) == 2 && Pow2(2) == 4 && Pow2(3) == 8 && Pow2(4) == 16
    ensures Pow2(5) == 32 && Pow2(6) == 64 && Pow2(7) == 128 && Pow2(9) == 512
    ensures Pow2(10) == 1024 && Pow2(11) == 2048 && Pow2(12) == 4096
    ensures Pow2(13) == 8192 && Pow2(16) == 65536
  {
  }

  lemma Pow2Add(a: nat, b: nat)
    ensures Pow2(a + b) == Pow2(a) * Pow2(b)
  {
    if b > 0 { Pow2Add(a, b - 1); }
  }

  lemma MulAtLeast(d: int, k: int)
    requires d >= 0 && k >= 1
    ensures d * k >= d
  {
    if k > 1 {
      MulAtLeast(d, k - 1);
      assert d * k == d * (k - 1) + d;
    }
  }

  /** Division with remainder has exactly one answer. */
  lemma DivModUnique(n: int, d: int, q: int, r: int)
    requires d > 0 && n == d * q + r && 0 <= r < d
    ensures n / d == q && n % d == r
  {
    var q', r' := n / d, n % d;
    assert n == d * q' + r' && 0 <= r' < d;
    if q > q' {
      assert d * (q - q') == d * q - d * q';
      MulAtLeast(d, q - q');
    } else if q < q' {
      assert d * (q' - q) == d * q' - d * q;
      MulAtLeast(d, q' - q);
    }
  }

  lemma DivDiv(n: int, a: int, b: int)
    requires a > 0 && b > 0
    ensures n / a / b == n / (a * b)
  {
    var q, r := n / (a * b), n % (a * b);
    assert n == (a * b) * q + r;
    var s := r / a;
    assert r == a * s + r % a;
    assert n == a * (b * q + s) + r % a;
    DivModUnique(n, a, b * q + s, r % a);
    DivModUnique(n / a, b, q, s);
  }

  lemma ModMod(x: int, d: int, k: int)
    requires d > 0 && k > 0
    ensures x % (d * k) % d == x % d
  {
    var q, m := x / (d * k), x % (d * k);
    assert x == (d * k) * q + m;
    assert m == d * (m / d) + m % d;
    assert (d * k) * q == d * (k * q);
    DivModUnique(x, d, k * q + m / d, m % d);
  }

  lemma ModDiv(x: int, d: int, k: int)
    requires d > 0 && k > 0
    ensures x % (d * k) / d == (x / d) % k
  {
    var q, m := x / (d * k), x % (d * k);
    assert x == (d * k) * q + m;
    assert m == d * (m / d) + m % d;
    assert (d * k) * q == d * (k * q);
    DivModUnique(x, d, k * q + m / d, m % d);
    DivModUnique(x / d, k, q, m / d);
  }

  // ---------------------------------------------------------------------
  // Integer helpers of common_booth.py

  /** unsigned_to_signed: reads the low bitLength bits of value as a two's
      complement number. Python's % with a positive modulus is Dafny's %. With
      bitLength 0 the source compares against 2**-1 == 0.5 and returns 0. */
  function UnsignedToSigned(value: int, bitLength: nat): (r: int)
    ensures bitLength > 0 ==> -Pow2(bitLength - 1) <= r < Pow2(bitLength - 1)
    ensures bitLength == 0 ==> r == 0
    ensures (value - r) % Pow2(bitLength) == 0
    ensures bitLength > 0 && 0 <= value < Pow2(bitLength - 1) ==> r == value
  {
    var p := Pow2(bitLength);
    var unsigned := value % p;
    var signed := if bitLength > 0 && unsigned >= Pow2(bitLength - 1) then unsigned - p else unsigned;
    DivModUnique(value - signed, p, value / p + (if signed < unsigned then 1 else 0), 0);
    SmallValueMod(value, bitLength);
    signed
  }

  lemma SmallValueMod(value: int, bitLength: nat)
    ensures bitLength > 0 && 0 <= value < Pow2(bitLength - 1) ==> value % Pow2(bitLength) == value
  {
    if bitLength > 0 && 0 <= value < Pow2(bitLength - 1) {
      DivModUnique(value, Pow2(bitLength), 0, value);
    }
  }

  /** The signed reading is the only number in the signed range that is
      congruent to value: the partner that makes unsigned_to_signed's contract
      determine its result. */
  lemma UnsignedToSignedUnique(value: int, bitLength: nat, x: int)
    requires bitLength > 0
    requires -Pow2(bitLength - 1) <= x < Pow2(bitLength - 1)
    requires (value - x) % Pow2(bitLength) == 0
    ensures UnsignedToSigned(value, bitLength) == x
  {
    var p := Pow2(bitLength);
    var k := (value - x) / p;
    assert value - x == p * k;
    if x >= 0 {
      DivModUnique(value, p, k, x);
    } else {
      assert value == p * (k - 1) + (x + p);
      DivModUnique(value, p, k - 1, x + p);
    }
  }

  /** twos_complement: 6-bit negation, written as 2**6 - value. */
  function TwosComplement(value: int): (r: int)
    ensures 0 <= value < Pow2(ImmedBitLength) ==> 0 < r <= Pow2(ImmedBitLength)
    ensures 0 <= value < Pow2(ImmedBitLength) ==> (value + r) % Pow2(ImmedBitLength) == 0
  {
    Pow2(ImmedBitLength) - value
  }

  /** Read as 6-bit signed numbers, twos_complement negates, except at -32,
      whose negation does not fit in 6 bits. */
  lemma TwosComplementNegates(value: int)
    requires 0 <= value < 64
    ensures value != 32 ==> UnsignedToSigned(TwosComplement(value), 6) == -UnsignedToSigned(value, 6)
    ensures value == 32 ==> UnsignedToSigned(TwosComplement(value), 6) == -32
  {
    Pow2Values();
    var s := UnsignedToSigned(value, 6);
    assert s == (if value >= 32 then value - 64 else value) by {
      UnsignedToSignedUnique(value, 6, if value >= 32 then value - 64 else value);
    }
    var t := TwosComplement(value);
    assert t == 64 - value;
    var expected := if value == 32 then -32 else -s;
    UnsignedToSignedUnique(t, 6, expected);
  }

  /** bit_len: the number of binary digits of a non-negative integer. The
      source's loop shifts its argument right until it reaches 0, which never
      happens for a negative argument, so the source demands v >= 0. */
  method BitLen(v: int) returns (length: nat)
    requires v >= 0
    ensures v == 0 ==> length == 0
    ensures v > 0 ==> length > 0 && Pow2(length - 1) <= v < Pow2(length)
  {
    var intType := v;
    length := 0;
    while intType != 0
      invariant intType >= 0
      invariant intType == v / Pow2(length)
      invariant length > 0 ==> Pow2(length - 1) <= v
    {
      ShiftStep(v, length, intType);
      intType := intType / 2;
      length := length + 1;
    }
    ShiftDone(v, length);
  }

  /** One pass of bit_len's loop: a nonzero v >> len means 2**len <= v, and
      halving it gives v >> (len + 1). */
  lemma ShiftStep(v: nat, len: nat, q: nat)
    requires q == v / Pow2(len) && q != 0
    ensures q / 2 == v / Pow2(len + 1) && Pow2(len) <= v
  {
    var p := Pow2(len);
    assert v == p * q + v % p;
    MulAtLeast(p, q);
    DivDiv(v, p, 2);
  }

  lemma ShiftDone(v: nat, len: nat)
    requires v / Pow2(len) == 0
    ensures v < Pow2(len)
  {
    assert v == Pow2(len) * 0 + v % Pow2(len);
  }

  /** is_MSB_signed: whether bit bitLen-1 of value is set. The source shifts
      1 left by bitLen-1, which Python refuses for bitLen 0. */
  function IsMsbSigned(value: int, bitLen: nat): (r: bool)
    requires bitLen >= 1
    ensures r <==> UnsignedToSigned(value, bitLen) < 0
  {
    MsbIsSign(value, bitLen);
    (value / Pow2(bitLen - 1)) % 2 == 1
  }

  lemma MsbIsSign(value: int, bitLen: nat)
    requires bitLen >= 1
    ensures (value / Pow2(bitLen - 1)) % 2 == 1 <==> UnsignedToSigned(value, bitLen) < 0
  {
    var h := Pow2(bitLen - 1);
    var p := Pow2(bitLen);
    assert p == 2 * h;
    var q, u := value / p, value % p;
    assert value == p * q + u;
    var hi := if u >= h then 1 else 0;
    assert u == h * hi + (u - h * hi);
    assert value == h * (2 * q + hi) + (u - h * hi);
    DivModUnique(value, h, 2 * q + hi, u - h * hi);
    DivModUnique(2 * q + hi, 2, q, hi);
  }

  /** [c] * count, which Python makes empty when count <= 0. */
  function Repeat(c: char, count: int): (r: string)
    ensures |r| == if count > 0 then count else 0
    ensures forall i :: 0 <= i < |r| ==> r[i] == c
  {
    if count <= 0 then [] else [c] + Repeat(c, count - 1)
  }

  /** sign_extend: max_len - bit_len copies of bit s_len-1 of value. */
  function SignExtend(value: int, bitLen: int, sLen: nat, maxLen: int): (r: string)
    requires sLen >= 1
    ensures |r| == if maxLen > bitLen then maxLen - bitLen else 0
    ensures forall i :: 0 <= i < |r| ==> r[i] == if UnsignedToSigned(value, sLen) < 0 then '1' else '0'
  {
    Repeat(if IsMsbSigned(value, sLen) then '1' else '0', maxLen - bitLen)
  }

  /** zero_extend: max_len - bit_len copies of '0' (value is unused). */
  function ZeroExtend(value: int, bitLen: int, maxLen: int): (r: string)
    ensures |r| == if maxLen > bitLen then maxLen - bitLen else 0
    ensures forall i :: 0 <= i < |r| ==> r[i] == '0'
  {
    Repeat('0', maxLen - bitLen)
  }

  /** one_extend: max_len - bit_len copies of '1' (value is unused). */
  function OneExtend(value: int, bitLen: int, maxLen: int): (r: string)
    ensures |r| == if maxLen > bitLen then maxLen - bitLen else 0
    ensures forall i :: 0 <= i < |r| ==> r[i] == '1'
  {
    Repeat('1', maxLen - bitLen)
  }

  // ---------------------------------------------------------------------
  // Binary strings: integer_to_binary with a zero-padded '{:0Nb}' format,
  // and Python's int(s, 2)

  predicate IsBinary(s: string) {
    forall i :: 0 <= i < |s| ==> s[i] == '0' || s[i] == '1'
  }

  /** The width-digit binary rendering of n, most significant bit first; for
      n < 2**width this is '{:0<width>b}'.format(n). */
  function Bits(n: nat, width: nat): (r: string)
    ensures |r| == width && IsBinary(r)
  {
    if width == 0 then [] else Bits(n / 2, width - 1) + [if n % 2 == 1 then '1' else '0']
  }

  /** int(s, 2) for a string of binary digits. */
  function BinaryValue(s: string): (v: nat)
    ensures v < Pow2(|s|)
  {
    if |s| == 0 then 0
    else 2 * BinaryValue(s[..|s| - 1]) + (if s[|s| - 1] == '1' then 1 else 0)
  }

  /** Parsing a rendering gives back the value, reduced to the width. */
  lemma {:induction false} BinaryValueOfBits(n: nat, width: nat)
    ensures BinaryValue(Bits(n, width)) == n % Pow2(width)
  {
    if width == 0 {
      DivModUnique(n, 1, n, 0);
    } else {
      var s := Bits(n, width);
      assert s[..|s| - 1] == Bits(n / 2, width - 1);
      BinaryValueOfBits(n / 2, width - 1);
      HalfMod(n, Pow2(width - 1));
    }
  }

  lemma HalfMod(n: nat, h: int)
    requires h >= 1
    ensures n % (2 * h) == 2 * ((n / 2) % h) + n % 2
  {
    var half, q, m := n / 2, (n / 2) / h, (n / 2) % h;
    assert half == h * q + m;
    assert n == 2 * half + n % 2;
    assert 2 * (h * q) == (2 * h) * q;
    assert n == (2 * h) * q + (2 * m + n % 2);
    DivModUnique(n, 2 * h, q, 2 * m + n % 2);
  }

  /** Rendering a parsed binary string gives back the string. */
  lemma {:induction false} BitsOfBinaryValue(s: string)
    requires IsBinary(s)
    ensures Bits(BinaryValue(s), |s|) == s
  {
    if |s| > 0 {
      var init := s[..|s| - 1];
      BitsOfBinaryValue(init);
      var v := BinaryValue(s);
      var b := if s[|s| - 1] == '1' then 1 else 0;
      DivModUnique(v, 2, BinaryValue(init), b);
      assert s == init + [s[|s| - 1]];
    }
  }

  /** Dropping the first a digits of a rendering leaves the shorter rendering. */
  lemma {:induction false} BitsSuffix(n: nat, width: nat, a: nat)
    requires a <= width
    ensures Bits(n, width)[a..] == Bits(n, width - a)
  {
    if a < width {
      BitsSuffix(n / 2, width - 1, a);
      var c := if n % 2 == 1 then '1' else '0';
      assert Bits(n, width) == Bits(n / 2, width - 1) + [c];
      assert Bits(n, width)[a..] == Bits(n / 2, width - 1)[a..] + [c];
    }
  }

  /** The first k digits of a rendering render n shifted right by width - k. */
  lemma {:induction false} BitsPrefix(n: nat, width: nat, k: nat)
    requires k <= width
    ensures Bits(n, width)[..k] == Bits(n / Pow2(width - k), k)
  {
    if k == width {
      DivModUnique(n, 1, n, 0);
    } else {
      BitsPrefix(n / 2, width - 1, k);
      assert Bits(n, width)[..k] == Bits(n / 2, width - 1)[..k];
      DivDiv(n, 2, Pow2(width - 1 - k));
    }
  }

  /** Reading the digits a..b of a width-digit rendering gives the bit field
      of n that they show: the basis of decoding by string slices. */
  lemma BitsField(n: nat, width: nat, a: nat, b: nat)
    requires a <= b <= width
    ensures BinaryValue(Bits(n, width)[a..b]) == (n / Pow2(width - b)) % Pow2(b - a)
  {
    BitsPrefix(n, width, b);
    FieldOfPrefix(Bits(n, width), n / Pow2(width - b), a, b);
  }

  /** The digits a..b of a string whose first b digits render m. */
  lemma FieldOfPrefix(s: string, m: nat, a: nat, b: nat)
    requires a <= b <= |s| && s[..b] == Bits(m, b)
    ensures BinaryValue(s[a..b]) == m % Pow2(b - a)
  {
    BitsSuffix(m, b, a);
    SliceOfPrefixSuffix(s, Bits(m, b), Bits(m, b - a), a, b);
    BinaryValueOfBits(m, b - a);
  }

  lemma SliceOfPrefixSuffix<T>(s: seq<T>, p: seq<T>, q: seq<T>, a: nat, b: nat)
    requires a <= b <= |s| && s[..b] == p && p[a..] == q
    ensures s[a..b] == q
  {
  }

  // ---------------------------------------------------------------------
  // Sequence slices, stated generically so that equalities between
  // sequences of strings are not unfolded down to their characters

  lemma TakeAll<T>(s: seq<T>)
    ensures s[..|s|] == s
  {
  }

  lemma TakeTake<T>(s: seq<T>, k: nat, n: nat)
    requires n <= k <= |s|
    ensures s[..k][..n] == s[..n]
  {
  }

  lemma TakeSnoc<T>(s: seq<T>, i: nat)
    requires i < |s|
    ensures s[..i + 1][..i] == s[..i] && s[..i + 1][i] == s[i]
  {
  }

  lemma TakeSnocAppend<T>(s: seq<T>, i: nat)
    requires i < |s|
    ensures s[..i + 1] == s[..i] + [s[i]]
  {
  }

  lemma Snoc<T>(p: seq<T>, x: T)
    ensures |p + [x]| == |p| + 1 && (p + [x])[..|p|] == p && (p + [x])[|p|] == x
    ensures forall j :: 0 <= j < |p| ==> (p + [x])[j] == p[j]
  {
  }

  lemma TakeOfAppend<T>(a: seq<T>, b: seq<T>)
    ensures (a + b)[..|a|] == a
  {
  }

  lemma AppendEmpty<T>(a: seq<T>, b: seq<T>)
    requires |b| == 0
    ensures a + b == a
  {
  }

  lemma InitOfAppend<T>(a: seq<T>, b: seq<T>)
    requires |b| > 0
    ensures (a + b)[..|a + b| - 1] == a + b[..|b| - 1] && (a + b)[|a + b| - 1] == b[|b| - 1]
  {
  }
}
