/** `create_hash`: a list of bounded fields is folded into one natural
    number by mixed-radix encoding, written out as bits least significant
    first over exactly as many bits as the largest encodable value needs,
    and the bits are packed eight to a byte, most significant bit first. */
module Hasher {

  newtype byte = x: int | 0 <= x < 256

  /** 2^64: the first value a `u64` cannot hold. */
  const U64_LIMIT: nat := 0x1_0000_0000_0000_0000

  /** One field of a hash: `maxValue` is the number of values it can take
      and `currentValue` the one it takes. */
  datatype HashRange = HashRange(maxValue: nat, currentValue: nat) {
    predicate Valid() {
      maxValue > 1 && currentValue < maxValue
    }
  }

  /** `HashRange::new` asserts that the field has at least two values and
      that the current value is one of them. */
  function NewRange(maxValue: nat, currentValue: nat): (r: HashRange)
    requires maxValue > 1 && currentValue < maxValue
    ensures r.Valid() && r.maxValue == maxValue && r.currentValue == currentValue
  {
    HashRange(maxValue, currentValue)
  }

  predicate AllValid(rs: seq<HashRange>) {
    forall i :: 0 <= i < |rs| ==> rs[i].Valid()
  }

  function Pow2(k: nat): (p: nat)
    ensures p >= 1
  {
    if k == 0 then 1 else 2 * Pow2(k - 1)
  }

  /** The number of bits of `n` (`BigUint::bits`): zero for zero. */
  function BitLength(n: nat): nat {
    if n == 0 then 0 else 1 + BitLength(n / 2)
  }

  /** `BitLength(n)` is the least `k` with `n < 2^k`. */
  lemma {:induction false} BitLengthBound(n: nat)
    ensures n < Pow2(BitLength(n))
    ensures n > 0 ==> Pow2(BitLength(n) - 1) <= n
  {
    if n > 0 {
      BitLengthBound(n / 2);
    }
  }

  /** A number that switches from a `u64` to a big integer when an
      operation would overflow. */
  datatype Dyn = Regular(v: nat) | Struct(b: nat) {
    predicate Wf() {
      Regular? ==> v < U64_LIMIT
    }

    function Value(): nat {
      if Regular? then v else b
    }

    function Add(other: nat): (r: Dyn)
      requires Wf()
      ensures r.Wf() && r.Value() == Value() + other
      ensures r.Regular? <==> Regular? && Value() + other < U64_LIMIT
    {
      match this
      case Regular(x) => if x + other < U64_LIMIT then Regular(x + other) else Struct(x + other)
      case Struct(x) => Struct(x + other)
    }

    function Mul(other: nat): (r: Dyn)
      requires Wf()
      ensures r.Wf() && r.Value() == Value() * other
      ensures r.Regular? <==> Regular? && Value() * other < U64_LIMIT
    {
      match this
      case Regular(x) => if x * other < U64_LIMIT then Regular(x * other) else Struct(x * other)
      case Struct(x) => Struct(x * other)
    }

    /** A right shift keeps the representation. */
    function Shr(n: nat): (r: Dyn)
      requires Wf()
      ensures r.Wf() && r.Value() == Value() / Pow2(n)
      ensures r.Regular? == Regular?
    {
      match this
      case Regular(x) => Regular(Quot(x, Pow2(n)))
      case Struct(x) => Struct(Quot(x, Pow2(n)))
    }

    predicate IsZero()
      ensures IsZero() <==> Value() == 0
    {
      match this
      case Regular(x) => x == 0
      case Struct(x) => x == 0
    }

    predicate IsOdd()
      ensures IsOdd() <==> Value() % 2 == 1
    {
      match this
      case Regular(x) => x % 2 == 1
      case Struct(x) => x % 2 == 1
    }

    function Bits(): (n: nat)
      ensures Value() < Pow2(n)
      ensures Value() > 0 ==> Pow2(n - 1) <= Value()
    {
      BitLengthBound(Value());
      match this
      case Regular(x) => BitLength(x)
      case Struct(x) => BitLength(x)
    }
  }

  function Radices(rs: seq<HashRange>): (r: seq<nat>)
    ensures |r| == |rs|
  {
    seq(|rs|, i requires 0 <= i < |rs| => rs[i].maxValue)
  }

  function Digits(rs: seq<HashRange>): (r: seq<nat>)
    ensures |r| == |rs|
  {
    seq(|rs|, i requires 0 <= i < |rs| => rs[i].currentValue)
  }

  /** Ranges are equal exactly when their radices and digits are. */
  lemma RangesEqual(a: seq<HashRange>, b: seq<HashRange>)
    requires Radices(a) == Radices(b) && Digits(a) == Digits(b)
    ensures a == b
  {
    assert |a| == |Radices(a)| == |b|;
    forall i | 0 <= i < |a| ensures a[i] == b[i] {
      assert Radices(a)[i] == Radices(b)[i] && Digits(a)[i] == Digits(b)[i];
    }
  }

  /** The left fold `val * max + cur` over the ranges, in list order. */
  function Fold(rs: seq<HashRange>): nat {
    if rs == [] then 0
    else Fold(rs[..|rs| - 1]) * rs[|rs| - 1].maxValue + rs[|rs| - 1].currentValue
  }

  function Product(radices: seq<nat>): nat {
    if radices == [] then 1 else Product(radices[..|radices| - 1]) * radices[|radices| - 1]
  }

  /** The fold `bits * max + (max - 1)` that the source keeps for the bit
      count is the largest encodable value. */
  function MaxFold(rs: seq<HashRange>): int {
    if rs == [] then 0
    else MaxFold(rs[..|rs| - 1]) * rs[|rs| - 1].maxValue + (rs[|rs| - 1].maxValue - 1)
  }

  lemma {:induction false} MaxFoldIsProduct(rs: seq<HashRange>)
    ensures MaxFold(rs) == Product(Radices(rs)) - 1
  {
    if rs != [] {
      var init := rs[..|rs| - 1];
      MaxFoldIsProduct(init);
      assert Radices(rs)[..|rs| - 1] == Radices(init);
    }
  }

  /** The number of values a list of valid ranges can encode is at least 1. */
  lemma {:induction false} ProductPositive(radices: seq<nat>)
    requires forall i :: 0 <= i < |radices| ==> radices[i] > 1
    ensures Product(radices) >= 1
    ensures |radices| > 0 ==> Product(radices) >= 2
  {
    if radices != [] {
      ProductPositive(radices[..|radices| - 1]);
    }
  }

  lemma MulAtLeast(k: int, m: nat)
    requires k >= 1
    ensures k * m >= m
  {
  }

  lemma MulMono(a: nat, b: nat, m: nat)
    requires a <= b
    ensures a * m <= b * m
  {
    assert b * m - a * m == (b - a) * m;
  }

  /** Euclidean division is determined by quotient and remainder. */
  lemma DivUnique(a: int, m: nat, q: int, c: int)
    requires m > 0 && 0 <= c < m && a == q * m + c
    ensures a / m == q && a % m == c
  {
    var q' := a / m;
    var c' := a % m;
    assert a == q' * m + c';
    assert (q - q') * m == c' - c;
    if q - q' >= 1 {
      MulAtLeast(q - q', m);
    } else if q' - q >= 1 {
      MulAtLeast(q' - q, m);
    }
  }

  /** Integer division, which never exceeds the dividend. */
  function Quot(x: nat, d: nat): (q: nat)
    requires d >= 1
    ensures q == x / d && q <= x
  {
    DivLe(x, d);
    x / d
  }

  lemma DivLe(x: nat, d: nat)
    requires d >= 1
    ensures x / d <= x
  {
    var q := x / d;
    assert x == q * d + x % d;
    if q >= 1 {
      MulAtLeast(d, q);
    }
  }

  /** Division by the last radix recovers the prefix fold and the last digit. */
  lemma DivModFold(q: nat, m: nat, c: nat)
    requires c < m
    ensures (q * m + c) / m == q && (q * m + c) % m == c
  {
    DivUnique(q * m + c, m, q, c);
  }

  /** Splits a number into its digits in the given radices, the last radix
      least significant: the inverse of `Fold`. */
  function Unfold(n: nat, radices: seq<nat>): (r: seq<nat>)
    requires forall i :: 0 <= i < |radices| ==> radices[i] > 0
    ensures |r| == |radices|
    decreases |radices|
  {
    if |radices| == 0 then []
    else
      var m := radices[|radices| - 1];
      assert m > 0;
      var q: nat := n / m;
      Unfold(q, radices[..|radices| - 1]) + [n % m]
  }

  /** The fold of valid ranges stays below the product of the radices, and
      unfolding it gives back the digits. */
  lemma {:induction false} FoldRoundTrip(rs: seq<HashRange>)
    requires AllValid(rs)
    ensures Fold(rs) < Product(Radices(rs))
    ensures Unfold(Fold(rs), Radices(rs)) == Digits(rs)
  {
    if rs != [] {
      var init := rs[..|rs| - 1];
      var last := rs[|rs| - 1];
      FoldRoundTrip(init);
      assert Radices(rs)[..|rs| - 1] == Radices(init);
      assert Digits(rs) == Digits(init) + [last.currentValue];
      var f := Fold(init);
      var p := Product(Radices(init));
      DivModFold(f, last.maxValue, last.currentValue);
      MulMono(f, p - 1, last.maxValue);
      assert (p - 1) * last.maxValue == p * last.maxValue - last.maxValue;
    }
  }

  /** `n` written out as `len` bits, least significant first. */
  function ToBits(n: nat, len: nat): (r: seq<bool>)
    ensures |r| == len
  {
    if len == 0 then [] else [n % 2 == 1] + ToBits(n / 2, len - 1)
  }

  function FromBits(bits: seq<bool>): nat {
    if bits == [] then 0 else (if bits[0] then 1 else 0) + 2 * FromBits(bits[1..])
  }

  lemma {:induction false} ToBitsRoundTrip(n: nat, len: nat)
    requires n < Pow2(len)
    ensures FromBits(ToBits(n, len)) == n
  {
    if len > 0 {
      ToBitsRoundTrip(n / 2, len - 1);
      assert ToBits(n, len)[1..] == ToBits(n / 2, len - 1);
    }
  }

  lemma {:induction false} ToBitsZero(len: nat)
    ensures forall i :: 0 <= i < len ==> !ToBits(0, len)[i]
  {
    if len > 0 {
      ToBitsZero(len - 1);
      assert forall i :: 1 <= i < len ==> ToBits(0, len)[i] == ToBits(0, len - 1)[i - 1];
    }
  }

  /** The value of `bits[k..]` read most significant first. */
  function HornerFrom(bits: seq<bool>, k: nat): nat
    decreases |bits| - k
  {
    if k >= |bits| then 0 else (if bits[k] then Pow2(|bits| - 1 - k) else 0) + HornerFrom(bits, k + 1)
  }

  lemma {:induction false} HornerBound(bits: seq<bool>, k: nat)
    requires k <= |bits|
    ensures HornerFrom(bits, k) < Pow2(|bits| - k)
    decreases |bits| - k
  {
    if k < |bits| {
      HornerBound(bits, k + 1);
    }
  }

  /** The first eight bits, padded with zeros when there are fewer. */
  function Pad8(bits: seq<bool>): (r: seq<bool>)
    ensures |r| == 8
  {
    seq(8, j requires 0 <= j < 8 => j < |bits| && bits[j])
  }

  /** One byte of `Bitv::to_bytes`: bit `j` of the chunk has weight `128 >> j`. */
  function PackByte(bits: seq<bool>): byte {
    HornerBound(Pad8(bits), 0);
    assert Pow2(8) == 256;
    HornerFrom(Pad8(bits), 0) as byte
  }

  function Weight(bits: seq<bool>, j: nat, w: nat): nat {
    if j < |bits| && bits[j] then w else 0
  }

  /** Bit `j` of a chunk carries weight `128 >> j`; bits past the end count 0. */
  lemma PackByteWeights(bits: seq<bool>)
    ensures PackByte(bits) as int
         == Weight(bits, 0, 128) + Weight(bits, 1, 64) + Weight(bits, 2, 32) + Weight(bits, 3, 16)
          + Weight(bits, 4, 8) + Weight(bits, 5, 4) + Weight(bits, 6, 2) + Weight(bits, 7, 1)
  {
    var p := Pad8(bits);
    HornerEight(p);
    assert (if p[0] then 128 else 0) == Weight(bits, 0, 128);
    assert (if p[1] then 64 else 0) == Weight(bits, 1, 64);
    assert (if p[2] then 32 else 0) == Weight(bits, 2, 32);
    assert (if p[3] then 16 else 0) == Weight(bits, 3, 16);
    assert (if p[4] then 8 else 0) == Weight(bits, 4, 8);
    assert (if p[5] then 4 else 0) == Weight(bits, 5, 4);
    assert (if p[6] then 2 else 0) == Weight(bits, 6, 2);
    assert (if p[7] then 1 else 0) == Weight(bits, 7, 1);
  }

  lemma HornerEight(p: seq<bool>)
    requires |p| == 8
    ensures HornerFrom(p, 0) == (if p[0] then 128 else 0) + (if p[1] then 64 else 0) + (if p[2] then 32 else 0) + (if p[3] then 16 else 0) + (if p[4] then 8 else 0) + (if p[5] then 4 else 0) + (if p[6] then 2 else 0) + (if p[7] then 1 else 0)
  {
    assert HornerFrom(p, 8) == 0;
    assert HornerFrom(p, 7) == (if p[7] then 1 else 0);
    assert HornerFrom(p, 6) == (if p[6] then 2 else 0) + HornerFrom(p, 7);
    assert HornerFrom(p, 5) == (if p[5] then 4 else 0) + HornerFrom(p, 6);
    assert HornerFrom(p, 4) == (if p[4] then 8 else 0) + HornerFrom(p, 5);
    assert HornerFrom(p, 3) == (if p[3] then 16 else 0) + HornerFrom(p, 4);
    assert HornerFrom(p, 2) == (if p[2] then 32 else 0) + HornerFrom(p, 3);
    assert HornerFrom(p, 1) == (if p[1] then 64 else 0) + HornerFrom(p, 2);
    assert HornerFrom(p, 0) == (if p[0] then 128 else 0) + HornerFrom(p, 1);
  }

  /** `Bitv::to_bytes`: bits in groups of eight, the last group padded. */
  function Pack(bits: seq<bool>): (r: seq<byte>)
    ensures |r| == (|bits| + 7) / 8
    decreases |bits|
  {
    if bits == [] then []
    else if |bits| <= 8 then [PackByte(bits)]
    else [PackByte(bits[..8])] + Pack(bits[8..])
  }

  /** `k` bits of `x`, most significant first. */
  function ByteBits(x: nat, k: nat): (r: seq<bool>)
    ensures |r| == k
  {
    if k == 0 then []
    else [x >= Pow2(k - 1)] + ByteBits(if x >= Pow2(k - 1) then x - Pow2(k - 1) else x, k - 1)
  }

  lemma {:induction false} ByteBitsHorner(bits: seq<bool>, k: nat)
    requires k <= |bits|
    ensures ByteBits(HornerFrom(bits, k), |bits| - k) == bits[k..]
    decreases |bits| - k
  {
    if k < |bits| {
      HornerBound(bits, k + 1);
      ByteBitsHorner(bits, k + 1);
      assert bits[k..] == [bits[k]] + bits[k + 1..];
    }
  }

  /** The bits of a byte string, eight per byte, most significant first. */
  function Unpack(bytes: seq<byte>): (r: seq<bool>)
    ensures |r| == 8 * |bytes|
  {
    if bytes == [] then [] else ByteBits(bytes[0] as nat, 8) + Unpack(bytes[1..])
  }

  lemma PackByteBits(bits: seq<bool>)
    ensures ByteBits(PackByte(bits) as nat, 8) == Pad8(bits)
  {
    ByteBitsHorner(Pad8(bits), 0);
  }

  /** Packing bits and unpacking them gives them back, followed by the padding. */
  lemma {:induction false} UnpackPack(bits: seq<bool>)
    ensures |Unpack(Pack(bits))| >= |bits|
    ensures Unpack(Pack(bits))[..|bits|] == bits
    decreases |bits|
  {
    if bits == [] {
    } else if |bits| <= 8 {
      PackByteBits(bits);
      assert Unpack(Pack(bits)) == Pad8(bits) + [];
    } else {
      var rest := bits[8..];
      PackByteBits(bits[..8]);
      UnpackPack(rest);
      assert Pad8(bits[..8]) == bits[..8];
      assert Unpack(Pack(bits)) == bits[..8] + Unpack(Pack(rest));
      assert bits == bits[..8] + rest;
    }
  }

  /** The number of bits a hash over these radices takes. */
  function HashBits(radices: seq<nat>): nat {
    if Product(radices) == 0 then 0 else BitLength(Product(radices) - 1)
  }

  /** What `create_hash` returns. */
  function HashOf(rs: seq<HashRange>): seq<byte> {
    Pack(ToBits(Fold(rs), HashBits(Radices(rs))))
  }

  /** Reads a hash back into digits for the given radices. */
  function Decode(bytes: seq<byte>, radices: seq<nat>): (r: seq<nat>)
    requires forall i :: 0 <= i < |radices| ==> radices[i] > 0
    ensures |r| == |radices|
  {
    var bits := Unpack(bytes);
    var len := HashBits(radices);
    Unfold(FromBits(if len <= |bits| then bits[..len] else bits), radices)
  }

  /** Decoding a hash with its own radices gives back every current value:
      the encoding loses nothing. */
  lemma HashRoundTrip(rs: seq<HashRange>)
    requires AllValid(rs)
    ensures Decode(HashOf(rs), Radices(rs)) == Digits(rs)
  {
    var radices := Radices(rs);
    ProductPositive(radices);
    FoldRoundTrip(rs);
    var p := Product(radices);
    BitLengthBound(p - 1);
    var bits := ToBits(Fold(rs), HashBits(radices));
    UnpackPack(bits);
    ToBitsRoundTrip(Fold(rs), HashBits(radices));
  }

  /** For fixed radices the hash is injective in the current values. */
  lemma HashInjective(a: seq<HashRange>, b: seq<HashRange>)
    requires AllValid(a) && AllValid(b)
    requires Radices(a) == Radices(b)
    ensures HashOf(a) == HashOf(b) <==> a == b
  {
    if HashOf(a) == HashOf(b) {
      HashRoundTrip(a);
      HashRoundTrip(b);
      RangesEqual(a, b);
    }
  }

  /** The length of a hash depends only on the radices. */
  lemma HashLength(rs: seq<HashRange>)
    ensures |HashOf(rs)| == (HashBits(Radices(rs)) + 7) / 8
  {
  }

  /** The source's `create_hash`: the fold, then the bit vector, then the
      bytes. */
  method CreateHash(ranges: seq<HashRange>) returns (r: seq<byte>)
    requires AllValid(ranges)
    ensures r == HashOf(ranges)
  {
    var val, bitsRequired := FoldRanges(ranges);
    FoldRoundTrip(ranges);
    ProductPositive(Radices(ranges));
    var len := bitsRequired.Bits();
    var bv := WriteBits(val, len);
    r := Pack(bv);
  }

  /** The first loop of `create_hash`: the value and the bit-count bound,
      each kept in an overflow-switching number. */
  method FoldRanges(ranges: seq<HashRange>) returns (val: Dyn, bitsRequired: Dyn)
    requires AllValid(ranges)
    ensures val.Wf() && val.Value() == Fold(ranges)
    ensures bitsRequired.Wf() && bitsRequired.Value() == Product(Radices(ranges)) - 1
  {
    val := Regular(0);
    bitsRequired := Regular(0);
    var i := 0;
    while i < |ranges|
      invariant i <= |ranges|
      invariant val.Wf() && bitsRequired.Wf()
      invariant val.Value() == Fold(ranges[..i])
      invariant bitsRequired.Value() == MaxFold(ranges[..i])
    {
      var range := ranges[i];
      assert ranges[..i + 1][..i] == ranges[..i];
      val := val.Mul(range.maxValue);
      val := val.Add(range.currentValue);
      bitsRequired := bitsRequired.Mul(range.maxValue).Add(range.maxValue - 1);
      i := i + 1;
    }
    assert ranges[..i] == ranges;
    MaxFoldIsProduct(ranges);
  }

  /** The second loop of `create_hash`: a zeroed vector of `len` bits in
      which bit `i` is set from the value shifted right `i` times, until
      the value is zero. */
  method WriteBits(val: Dyn, len: nat) returns (bits: seq<bool>)
    requires val.Wf() && val.Value() < Pow2(len)
    ensures bits == ToBits(val.Value(), len)
  {
    ghost var target := ToBits(val.Value(), len);
    var bv := new bool[len](_ => false);
    var rest := val;
    var currentBit := 0;
    while !rest.IsZero()
      invariant rest.Wf()
      invariant currentBit <= len
      invariant rest.Value() < Pow2(len - currentBit)
      invariant ToBits(rest.Value(), len - currentBit) == target[currentBit..]
      invariant forall j :: 0 <= j < currentBit ==> bv[j] == target[j]
      invariant forall j :: currentBit <= j < len ==> !bv[j]
      decreases rest.Value()
    {
      BitStep(rest.Value(), len - currentBit);
      assert target[currentBit..][0] == target[currentBit];
      assert target[currentBit..][1..] == target[currentBit + 1..];
      bv[currentBit] := rest.IsOdd();
      currentBit := currentBit + 1;
      rest := rest.Shr(1);
    }
    ToBitsZero(len - currentBit);
    assert forall j :: currentBit <= j < len ==> target[j] == target[currentBit..][j - currentBit];
    bits := bv[..];
  }

  /** One halving: the low bit comes first and the rest is the half. */
  lemma BitStep(n: nat, k: nat)
    requires 0 < n < Pow2(k)
    ensures k > 0
    ensures ToBits(n, k) == [n % 2 == 1] + ToBits(n / 2, k - 1)
    ensures n / 2 < Pow2(k - 1)
  {
  }
}

/** The repository's `create_hash` test vectors. */
module HasherTests {
  import opened Hasher

  lemma FoldAppend(rs: seq<HashRange>, r: HashRange)
    ensures Fold(rs + [r]) == Fold(rs) * r.maxValue + r.currentValue
    ensures Radices(rs + [r]) == Radices(rs) + [r.maxValue]
    ensures Product(Radices(rs + [r])) == Product(Radices(rs)) * r.maxValue
  {
    assert (rs + [r])[..|rs|] == rs;
    assert Radices(rs + [r])[..|rs|] == Radices(rs);
  }

  lemma Pow2Values()
    ensures Pow2(0) == 1 && Pow2(1) == 2 && Pow2(2) == 4 && Pow2(3) == 8 && Pow2(4) == 16
    ensures Pow2(5) == 32 && Pow2(6) == 64 && Pow2(7) == 128 && Pow2(8) == 256 && Pow2(9) == 512
  {
  }

  /** `BitLength(n)` is `k` when `2^(k-1) <= n < 2^k`. */
  lemma {:induction false} BitLengthExact(n: nat, k: nat)
    requires k >= 1 && Pow2(k - 1) <= n < Pow2(k)
    ensures BitLength(n) == k
  {
    if k > 1 {
      BitLengthExact(n / 2, k - 1);
    }
  }

  lemma ProductSingle(m: nat)
    ensures Product([m]) == m
  {
    assert [m][..0] == [];
  }

  lemma SingleRange(r: HashRange)
    ensures HashOf([r]) == Pack(ToBits(r.currentValue, HashBits([r.maxValue])))
  {
    FoldAppend([], r);
    assert [] + [r] == [r];
  }

  /** `2^k` has exactly bit `k` set. */
  lemma {:induction false} ToBitsOneHot(k: nat, len: nat)
    requires k < len
    ensures forall j :: 0 <= j < len ==> ToBits(Pow2(k), len)[j] == (j == k)
  {
    var t := ToBits(Pow2(k), len);
    if k == 0 {
      ToBitsZero(len - 1);
      assert t == [true] + ToBits(0, len - 1);
    } else {
      ToBitsOneHot(k - 1, len - 1);
      assert t == [false] + ToBits(Pow2(k - 1), len - 1);
    }
  }

  /** `2^len - 1` has all `len` bits set. */
  lemma {:induction false} ToBitsAllOnes(n: nat, len: nat)
    requires n == Pow2(len) - 1
    ensures forall j :: 0 <= j < len ==> ToBits(n, len)[j]
  {
    if len > 0 {
      var half := Pow2(len - 1);
      ToBitsAllOnes(half - 1, len - 1);
      DivModFold(half - 1, 2, 1);
      assert n == (half - 1) * 2 + 1;
      var rest := ToBits(half - 1, len - 1);
      assert ToBits(n, len) == [true] + rest;
    }
  }

  /** The value 1 over one to eight bits sets the top bit of one byte. */
  lemma PackOne(k: nat)
    requires 1 <= k <= 8
    ensures Pack(ToBits(1, k)) == [128]
  {
    var bits := ToBits(1, k);
    assert Pack(bits) == [PackByte(bits)];
    assert Pow2(0) == 1;
    ToBitsOneHot(0, k);
    assert bits[0] && forall j :: 1 <= j < k ==> !bits[j];
    PackByteWeights(bits);
    assert Weight(bits, 0, 128) == 128;
  }

  lemma TestOneBit(m: nat, k: nat)
    requires 1 <= k <= 8 && m == Pow2(k) && Pow2(k - 1) <= m - 1
    ensures HashOf([HashRange(m, 1)]) == [128]
  {
    SingleRange(HashRange(m, 1));
    ProductSingle(m);
    BitLengthExact(m - 1, k);
    assert HashBits([m]) == k;
    PackOne(k);
  }

  lemma TestSingleByte()
    ensures HashOf([HashRange(2, 1)]) == [128]
    ensures HashOf([HashRange(4, 1)]) == [128]
    ensures HashOf([HashRange(128, 1)]) == [128]
    ensures HashOf([HashRange(256, 1)]) == [128]
  {
    Pow2Values();
    TestOneBit(2, 1);
    TestOneBit(4, 2);
    TestOneBit(128, 7);
    TestOneBit(256, 8);
  }

  /** A value below 512 over nine bits: two bytes, the ninth bit alone
      at the top of the second. */
  lemma NineBits(m: nat, c: nat)
    requires 257 <= m <= 512 && c < m
    ensures HashOf([HashRange(m, c)]) == [PackByte(ToBits(c, 9)[..8]), PackByte(ToBits(c, 9)[8..])]
  {
    Pow2Values();
    SingleRange(HashRange(m, c));
    ProductSingle(m);
    BitLengthExact(m - 1, 9);
    var bits := ToBits(c, 9);
    assert Pack(bits) == [PackByte(bits[..8])] + Pack(bits[8..]);
  }

  /** Nine bits of 1: only the first is set. */
  lemma FirstBitOnly()
    ensures PackByte(ToBits(Pow2(0), 9)[..8]) == 128
    ensures PackByte(ToBits(Pow2(0), 9)[8..]) == 0
  {
    ToBitsOneHot(0, 9);
    var bits := ToBits(Pow2(0), 9);
    var lo, hi := bits[..8], bits[8..];
    PackByteWeights(lo);
    PackByteWeights(hi);
    assert lo[0] && forall j :: 1 <= j < 8 ==> !lo[j];
    assert !hi[0];
  }

  /** Nine bits of 256: only the ninth is set. */
  lemma NinthBitOnly()
    ensures PackByte(ToBits(Pow2(8), 9)[..8]) == 0
    ensures PackByte(ToBits(Pow2(8), 9)[8..]) == 128
  {
    ToBitsOneHot(8, 9);
    var bits := ToBits(Pow2(8), 9);
    var lo, hi := bits[..8], bits[8..];
    PackByteWeights(lo);
    PackByteWeights(hi);
    assert forall j :: 0 <= j < 8 ==> !lo[j];
    assert hi[0];
    assert Weight(lo, 0, 128) == 0 && Weight(lo, 7, 1) == 0;
  }

  /** At 257 values a second byte is needed. */
  lemma TestTwoBytes()
    ensures HashOf([HashRange(257, 1)]) == [128, 0]
    ensures HashOf([HashRange(257, 256)]) == [0, 128]
  {
    Pow2Values();
    NineBits(257, 1);
    NineBits(257, 256);
    FirstBitOnly();
    NinthBitOnly();
  }

  lemma ThreeRanges(r0: HashRange, r1: HashRange, r2: HashRange)
    requires r0 == HashRange(2, 1) && r1 == HashRange(16, 15) && r2 == HashRange(8, 7)
    ensures HashOf([r0, r1, r2]) == [255]
  {
    Pow2Values();
    FoldAppend([], r0);
    FoldAppend([r0], r1);
    FoldAppend([r0, r1], r2);
    assert [] + [r0] == [r0] && [r0] + [r1] == [r0, r1] && [r0, r1] + [r2] == [r0, r1, r2];
    assert Fold([r0, r1, r2]) == 255;
    assert Product(Radices([r0, r1, r2])) == 256 by {
      assert Product(Radices([])) == 1;
    }
    BitLengthExact(255, 8);
    var bits := ToBits(255, 8);
    assert Pack(bits) == [PackByte(bits)];
    ToBitsAllOnes(255, 8);
    PackByteWeights(bits);
  }

  lemma TestThreeRanges()
    ensures HashOf([HashRange(2, 1), HashRange(16, 15), HashRange(8, 7)]) == [255]
  {
    ThreeRanges(HashRange(2, 1), HashRange(16, 15), HashRange(8, 7));
  }

  /** All-zero values hash to zero bytes, as many as the radices need. */
  lemma ZeroHash(rs: seq<HashRange>)
    requires forall i :: 0 <= i < |rs| ==> rs[i].currentValue == 0
    ensures Fold(rs) == 0
    ensures forall i :: 0 <= i < |HashOf(rs)| ==> HashOf(rs)[i] == 0
  {
    ZeroFold(rs);
    var bits := ToBits(0, HashBits(Radices(rs)));
    ToBitsZero(|bits|);
    ZeroPack(bits);
  }

  lemma {:induction false} ZeroFold(rs: seq<HashRange>)
    requires forall i :: 0 <= i < |rs| ==> rs[i].currentValue == 0
    ensures Fold(rs) == 0
  {
    if rs != [] {
      ZeroFold(rs[..|rs| - 1]);
    }
  }

  lemma {:induction false} ZeroPack(bits: seq<bool>)
    requires forall i :: 0 <= i < |bits| ==> !bits[i]
    ensures forall i :: 0 <= i < |Pack(bits)| ==> Pack(bits)[i] == 0
    decreases |bits|
  {
    if bits != [] {
      var chunk := if |bits| <= 8 then bits else bits[..8];
      PackByteWeights(chunk);
      if |bits| > 8 {
        ZeroPack(bits[8..]);
        assert Pack(bits) == [PackByte(chunk)] + Pack(bits[8..]);
      }
    }
  }

  lemma ZeroRanges(a: HashRange, b: HashRange)
    requires a == HashRange(2, 0) && b == HashRange(128, 0)
    ensures HashOf([a, a]) == [0]
    ensures HashOf([a, b]) == [0]
    ensures HashOf([a, b, a]) == [0, 0]
  {
    ZeroPair(a, a, 2);
    ZeroPair(a, b, 8);
    ZeroTriple(a, b);
  }

  /** Two zero fields whose product of radices needs `len` bits hash to one zero byte. */
  lemma ZeroPair(a: HashRange, b: HashRange, len: nat)
    requires a == HashRange(2, 0)
    requires (b == HashRange(2, 0) && len == 2) || (b == HashRange(128, 0) && len == 8)
    ensures HashOf([a, b]) == [0]
  {
    Pow2Values();
    FoldAppend([], a);
    FoldAppend([a], b);
    assert [] + [a] == [a] && [a] + [b] == [a, b];
    assert Product(Radices([])) == 1;
    BitLengthExact(2 * b.maxValue - 1, len);
    ZeroHash([a, b]);
  }

  lemma ZeroTriple(a: HashRange, b: HashRange)
    requires a == HashRange(2, 0) && b == HashRange(128, 0)
    ensures HashOf([a, b, a]) == [0, 0]
  {
    Pow2Values();
    FoldAppend([], a);
    FoldAppend([a], b);
    FoldAppend([a, b], a);
    assert [] + [a] == [a] && [a] + [b] == [a, b] && [a, b] + [a] == [a, b, a];
    assert Product(Radices([])) == 1;
    BitLengthExact(511, 9);
    ZeroHash([a, b, a]);
  }

  lemma TestZeros()
    ensures HashOf([HashRange(2, 0), HashRange(2, 0)]) == [0]
    ensures HashOf([HashRange(2, 0), HashRange(128, 0)]) == [0]
    ensures HashOf([HashRange(2, 0), HashRange(128, 0), HashRange(2, 0)]) == [0, 0]
  {
    ZeroRanges(HashRange(2, 0), HashRange(128, 0));
  }
}
