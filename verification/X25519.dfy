/** The X25519 function (crates/otter-crypto/src/x25519.rs): byte encodings of field elements
    and the Montgomery ladder of section 5 of RFC 7748. */
module X25519 {
  import opened Bytes
  import opened BitStreams
  import opened Congruence
  import opened Endian
  import opened FieldElements
  import opened FiveLimbs
  import Montgomery

  // ---------- decoding ----------

  /** Little-endian bytes and their bits, least significant first, spell the same number. */
  lemma {:induction false} BitsSpellBytes(b: ByteString)
    ensures LsbValue(StreamBits(b)) == LeValue(b)
  {
    if b != [] {
      LsbConcat(ByteBits(b[0]), StreamBits(b[1..]));
      LsbOfByte(b[0]);
      WholeByteValue();
      BitsSpellBytes(b[1..]);
    }
  }

  /** Bit g of a byte string. */
  function StreamBit(b: ByteString, g: nat): nat
    requires g < 8 * |b|
  {
    (b[g / 8] / Pow(2, g % 8)) % 2
  }

  lemma StreamBitIs(b: ByteString, g: nat)
    requires g < 8 * |b|
    ensures StreamBit(b, g) == if StreamBits(b)[g] then 1 else 0
  {
    hide StreamBits, Pow;
    StreamBitAt(b, g / 8, g % 8);
    assert g == 8 * (g / 8) + g % 8;
  }

  /** 51 bits of the string, from bit 51 i on, as one limb. */
  method LoadLimb(b: ByteString, i: nat) returns (limb: nat)
    requires |b| == 32 && i < 5
    ensures limb == LsbValue(StreamBits(b)[51 * i..51 * i + 51])
  {
    hide StreamBits, LsbValue, StreamBit, Pow;
    ghost var bits := StreamBits(b)[51 * i..51 * i + 51];
    limb := LsbValue([]);
    EmptyValue();
    for bit := 0 to 51
      invariant limb == LsbValue(bits[..bit])
    {
      var g := i * 51 + bit;
      StreamBitIs(b, g);
      LsbAppend(bits[..bit], bits[bit]);
      assert bits[..bit + 1] == bits[..bit] + [bits[bit]];
      limb := limb + StreamBit(b, g) * Pow(2, bit);
    }
    assert bits[..51] == bits;
  }

  lemma EmptyValue()
    ensures LsbValue([]) == 0
  {
  }

  lemma RadixIsPow2(n: nat)
    requires n == 51
    ensures Pow(2, n) == RADIX
  {
    hide Pow;
    Pow17(17);
    PowAdd(2, 17, 17);
    PowAdd(2, 34, 17);
  }

  lemma Pow17(n: nat)
    requires n == 17
    ensures Pow(2, n) == 0x2_0000
  {
    assert Pow(2, 8) == 256 && Pow(2, 16) == 256 * 256 by { PowAdd(2, 8, 8); }
  }

  /** Five pieces of 51 bits are the limbs of the number all the bits spell. */
  lemma LimbsOfBits(bits: Bits, f: Five)
    requires |bits| == 255
    requires f.x0 == LsbValue(bits[..51]) && f.x1 == LsbValue(bits[51..102]) && f.x2 == LsbValue(bits[102..153])
    requires f.x3 == LsbValue(bits[153..204]) && f.x4 == LsbValue(bits[204..])
    ensures Tight(RADIX, f) && Value(RADIX, f) == LsbValue(bits)
  {
    hide LsbValue, Pow, Horner;
    LowPiece(bits[..51], bits[51..]);
    LowPiece(bits[51..102], bits[102..]);
    LowPiece(bits[102..153], bits[153..]);
    LowPiece(bits[153..204], bits[204..]);
    LowPiece(bits[204..], []);
    assert bits[153..204] + bits[204..] == bits[153..] && bits[102..153] + bits[153..] == bits[102..];
    assert bits[51..102] + bits[102..] == bits[51..] && bits[..51] + bits[51..] == bits;
  }

  lemma LowPiece(a: Bits, b: Bits)
    requires |a| == 51
    ensures LsbValue(a) < RADIX && LsbValue(a + b) == Horner(RADIX, LsbValue(a), LsbValue(b))
  {
    RadixIsPow2(|a|);
    LsbConcat(a, b);
    LsbBound(a);
  }

  /** The number a coordinate encodes: its lowest 255 bits. */
  function Coordinate(b: ByteString): nat
    requires |b| == 32
  {
    LsbValue(StreamBits(b)[..255])
  }

  method FromBytes(b: ByteString) returns (f: Five)
    requires |b| == 32
    ensures Loose(f) && Residue(f) == Coordinate(b) % P
  {
    hide LsbValue, StreamBits, Value, Pow;
    var x0 := LoadLimb(b, 0);
    var x1 := LoadLimb(b, 1);
    var x2 := LoadLimb(b, 2);
    var x3 := LoadLimb(b, 3);
    var x4 := LoadLimb(b, 4);
    f := Five(x0, x1, x2, x3, x4);
    ghost var bits := StreamBits(b)[..255];
    assert StreamBits(b)[0..51] == bits[..51] && StreamBits(b)[51..102] == bits[51..102];
    assert StreamBits(b)[102..153] == bits[102..153] && StreamBits(b)[153..204] == bits[153..204];
    assert StreamBits(b)[204..255] == bits[204..];
    LimbsOfBits(bits, f);
  }

  // ---------- encoding ----------

  /** One conditional subtraction of P: the representative below P. */
  method Canonical(f: Five) returns (c: Five)
    requires Loose(f)
    ensures Tight(RADIX, c) && Value(RADIX, c) == Residue(f)
  {
    hide Value;
    var l := CarryReduce(f);
    Powers();
    TightBound(RADIX, l);
    DifferenceValue(RADIX, l, P_LIMBS);
    var (d0, b0) := SubLimb(RADIX, l.x0, P_LIMBS.x0, 0);
    var (d1, b1) := SubLimb(RADIX, l.x1, P_LIMBS.x1, b0);
    var (d2, b2) := SubLimb(RADIX, l.x2, P_LIMBS.x2, b1);
    var (d3, b3) := SubLimb(RADIX, l.x3, P_LIMBS.x3, b2);
    var (d4, borrow) := SubLimb(RADIX, l.x4, P_LIMBS.x4, b3);
    var diff := Five(d0, d1, d2, d3, d4);
    assert (diff, borrow) == Difference(RADIX, l, P_LIMBS);
    TightBound(RADIX, diff);
    c := if borrow == 0 then diff else l;
    PValue();
    OneSubtraction(P, 19, Value(RADIX, l), Value(RADIX, diff), borrow, Value(RADIX, f), Value(RADIX, c));
  }

  lemma PValue()
    ensures Value(RADIX, P_LIMBS) == P
  {
  }

  /** The first g bits are stored, and nothing above them. */
  ghost predicate Stored(bytes: ByteString, g: nat, bits: Bits)
    requires |bytes| == 32 && g < 256
  {
    && |bits| == g && bytes[g / 8] < Pow(2, g % 8)
    && StreamBits(bytes[..g / 8]) + LowBits(bytes[g / 8], g % 8) == bits
    && forall j :: g / 8 < j < 32 ==> bytes[j] == 0
  }

  lemma StoreStep(bytes: ByteString, g: nat, bits: Bits, bit: bool)
    requires |bytes| == 32 && g < 255 && Stored(bytes, g, bits)
    ensures var next := bytes[g / 8] + if bit then Pow(2, g % 8) else 0;
            next < 256 && Stored(bytes[g / 8 := next], g + 1, bits + [bit])
  {
    hide StreamBits, LowBits, Pow;
    var q, r := g / 8, g % 8;
    PushBit(bytes[q], r, bit);
    var next := bytes[q] + if bit then Pow(2, r) else 0;
    PowMonotone(2, r + 1, 8);
    WholeByteValue();
    var after := bytes[q := next];
    assert after[..q] == bytes[..q];
    if r == 7 {
      WholeByte(next);
      StreamConcat(bytes[..q], [next]);
      assert after[..q + 1] == bytes[..q] + [next];
      EmptyWriter();
    }
  }

  /** One limb's 51 bits into the byte array. */
  method StoreLimb(bytes: array<Byte>, i: nat, limb: nat, ghost bits: Bits)
    requires bytes.Length == 32 && i < 5 && Stored(bytes[..], 51 * i, bits)
    modifies bytes
    ensures Stored(bytes[..], 51 * i + 51, bits + LowBits(limb, 51))
  {
    hide Stored, LowBits, Pow;
    assert bits + LowBits(limb, 51)[..0] == bits;
    for bit := 0 to 51
      invariant Stored(bytes[..], 51 * i + bit, bits + LowBits(limb, 51)[..bit])
    {
      var g := i * 51 + bit;
      var value := (limb / Pow(2, bit)) % 2 == 1;
      LowBitAt(limb, 51, bit);
      StoreStep(bytes[..], g, bits + LowBits(limb, 51)[..bit], value);
      assert bits + LowBits(limb, 51)[..bit] + [value] == bits + LowBits(limb, 51)[..bit + 1];
      bytes[g / 8] := bytes[g / 8] + if value then Pow(2, g % 8) else 0;
    }
    assert LowBits(limb, 51)[..51] == LowBits(limb, 51);
  }

  /** All five limbs stored: the bytes spell their number. */
  lemma StoredValue(bytes: ByteString, c: Five, bits: Bits)
    requires |bytes| == 32 && Tight(RADIX, c) && Stored(bytes, 255, bits)
    requires bits == LowBits(c.x0, 51) + LowBits(c.x1, 51) + LowBits(c.x2, 51) + LowBits(c.x3, 51) + LowBits(c.x4, 51)
    ensures bytes == LeBytes(Value(RADIX, c), 32)
  {
    hide LsbValue, LowBits, StreamBits, LeValue, LeBytes, Value, Pow;
    LowLimb(c.x0, 51);
    LowLimb(c.x1, 51);
    LowLimb(c.x2, 51);
    LowLimb(c.x3, 51);
    LowLimb(c.x4, 51);
    assert bits[..51] == LowBits(c.x0, 51) && bits[51..102] == LowBits(c.x1, 51) && bits[102..153] == LowBits(c.x2, 51);
    assert bits[153..204] == LowBits(c.x3, 51) && bits[204..] == LowBits(c.x4, 51);
    LimbsOfBits(bits, c);
    LastByte(bytes, bits);
    LsbAppend(bits, false);
    BitsSpellBytes(bytes);
    LeUnique(bytes);
  }

  lemma LowLimb(x: nat, n: nat)
    requires x < RADIX && n == 51
    ensures LsbValue(LowBits(x, n)) == x
  {
    hide Pow;
    RadixIsPow2(n);
    LowBitsRoundTrip(x, n);
  }

  lemma LastByte(bytes: ByteString, bits: Bits)
    requires |bytes| == 32 && Stored(bytes, 255, bits)
    ensures StreamBits(bytes) == bits + [false]
  {
    hide StreamBits, LowBits, Pow;
    var top := bytes[31];
    PushBit(top, 7, false);
    WholeByteValue();
    WholeByte(top);
    StreamConcat(bytes[..31], [top]);
    assert bytes == bytes[..31] + [top];
    assert StreamBits(bytes[..31]) + (LowBits(top, 7) + [false]) == StreamBits(bytes[..31]) + LowBits(top, 7) + [false];
  }

  method ToBytes(f: Five) returns (b: ByteString)
    requires Loose(f)
    ensures b == LeBytes(Residue(f), 32)
  {
    hide Stored, LowBits, Value, Residue, LeBytes;
    var c := Canonical(f);
    var bytes := new Byte[32](_ => 0);
    NothingStored(bytes[..]);
    ghost var bits: Bits := [];
    StoreLimb(bytes, 0, c.x0, bits);
    bits := bits + LowBits(c.x0, 51);
    StoreLimb(bytes, 1, c.x1, bits);
    bits := bits + LowBits(c.x1, 51);
    StoreLimb(bytes, 2, c.x2, bits);
    bits := bits + LowBits(c.x2, 51);
    StoreLimb(bytes, 3, c.x3, bits);
    bits := bits + LowBits(c.x3, 51);
    StoreLimb(bytes, 4, c.x4, bits);
    bits := bits + LowBits(c.x4, 51);
    assert [] + LowBits(c.x0, 51) == LowBits(c.x0, 51);
    StoredValue(bytes[..], c, bits);
    b := bytes[..];
  }

  lemma NothingStored(bytes: ByteString)
    requires |bytes| == 32 && forall j :: 0 <= j < 32 ==> bytes[j] == 0
    ensures Stored(bytes, 0, [])
  {
    assert bytes[..0] == [];
    EmptyWriter();
  }

  // ---------- the ladder ----------

  /** A point's projective u-coordinate. */
  datatype Point = Point(x: nat, z: nat)

  /** Doubling (section 5 of RFC 7748). */
  function Double(p: Point): Point {
    var a, b := FAdd(p.x, p.z), FSub(p.x, p.z);
    var aa, bb := FMul(a, a), FMul(b, b);
    var e := FSub(aa, bb);
    Point(FMul(aa, bb), FMul(e, FAdd(aa, FMul(e, 121665))))
  }

  /** The sum of two points whose difference has coordinate x1. */
  function DiffAdd(x1: nat, p: Point, q: Point): Point {
    var da := FMul(FSub(q.x, q.z), FAdd(p.x, p.z));
    var cb := FMul(FAdd(q.x, q.z), FSub(p.x, p.z));
    Point(FMul(FAdd(da, cb), FAdd(da, cb)), FMul(x1, FMul(FSub(da, cb), FSub(da, cb))))
  }

  lemma Added(a: int, b: int, x: int, y: int)
    requires Cong(a, x, P) && Cong(b, y, P)
    ensures Cong(FAdd(a, b), x + y, P) && Cong(FSub(a, b), x - y, P)
  {
    CongMod(a + b, P);
    CongMod(a - b, P);
    MultipleSum(P, a - x, b - y);
    assert (a - x) + (b - y) == (a + b) - (x + y) && (a - x) - (b - y) == (a - b) - (x - y);
    hide Cong;
    CongFrom(a + b, x + y);
    CongFrom(a - b, x - y);
    CongTrans(FAdd(a, b), a + b, x + y, P);
    CongTrans(FSub(a, b), a - b, x - y, P);
  }

  lemma CongFrom(a: int, b: int)
    requires Multiple(P, a - b)
    ensures Cong(a, b, P)
  {
  }

  lemma Multiplied(a: int, b: int, x: int, y: int)
    requires Cong(a, x, P) && Cong(b, y, P)
    ensures Cong(FMul(a, b), x * y, P)
  {
    hide Cong;
    CongMod(a * b, P);
    CongMul(a, x, b, y, P);
    CongTrans(FMul(a, b), a * b, x * y, P);
  }

  /** Doubling on the Montgomery curve y^2 = x^3 + 486662 x^2 + x, in projective coordinates. */
  lemma DoubleIs(p: Point)
    ensures var x: int, z: int := p.x, p.z;
            && Double(p).x == Times(x * x - z * z, x * x - z * z) % P
            && Double(p).z == Times(4 * (x * z), x * x + 486662 * (x * z) + z * z) % P
  {
    hide Cong, FAdd, FSub, FMul;
    var x: int, z: int := p.x, p.z;
    CongRefl(x, P);
    CongRefl(z, P);
    var a, b := FAdd(x, z), FSub(x, z);
    Added(x, z, x, z);
    var aa, bb := FMul(a, a), FMul(b, b);
    Multiplied(a, a, x + z, x + z);
    Multiplied(b, b, x - z, x - z);
    Squares(x, z);
    var e := FSub(aa, bb);
    Added(aa, bb, (x + z) * (x + z), (x - z) * (x - z));
    ProductIs(aa, bb, (x + z) * (x + z), (x - z) * (x - z));
    assert FMul(aa, bb) == Times(x * x - z * z, x * x - z * z) % P;
    var small := FMul(e, 121665);
    CongRefl(121665, P);
    Multiplied(e, 121665, 4 * (x * z), 121665);
    Added(aa, small, (x + z) * (x + z), 4 * (x * z) * 121665);
    ProductIs(e, FAdd(aa, small), 4 * (x * z), x * x + 486662 * (x * z) + z * z);
  }

  lemma Squares(x: int, z: int)
    ensures (x + z) * (x + z) == x * x + 2 * (x * z) + z * z && (x - z) * (x - z) == x * x - 2 * (x * z) + z * z
    ensures (x + z) * (x + z) - (x - z) * (x - z) == 4 * (x * z)
    ensures (x + z) * (x + z) + 4 * (x * z) * 121665 == x * x + 486662 * (x * z) + z * z
    ensures ((x + z) * (x + z)) * ((x - z) * (x - z)) == (x * x - z * z) * (x * x - z * z)
  {
    var s, t := x + z, x - z;
    assert s * t == x * x - z * z;
    assert (s * s) * (t * t) == (s * t) * (s * t) by { Regrouped(s, t); }
  }

  lemma Regrouped(s: int, t: int)
    ensures (s * s) * (t * t) == (s * t) * (s * t)
  {
    assert (s * s) * (t * t) == s * (s * (t * t));
    assert (s * t) * (s * t) == s * (t * (s * t)) == s * (s * (t * t));
  }

  /** A product of field elements is the product of the numbers they stand for, reduced. */
  lemma ProductIs(a: int, b: int, x: int, y: int)
    requires Cong(a, x, P) && Cong(b, y, P)
    ensures FMul(a, b) == Times(x, y) % P
  {
    hide Cong;
    Multiplied(a, b, x, y);
    CongIsMod(FMul(a, b), x * y, P);
  }

  /** Differential addition: the sum of points whose difference has coordinate x1. */
  lemma DiffAddIs(x1: nat, p: Point, q: Point)
    ensures var s, t: int := p.x * q.x - p.z * q.z, p.x * q.z - p.z * q.x;
            && DiffAdd(x1, p, q).x == Times(2 * s, 2 * s) % P
            && DiffAdd(x1, p, q).z == Times(x1, (2 * t) * (2 * t)) % P
  {
    hide Cong, FAdd, FSub, FMul;
    var a: int, b: int, c: int, d: int := p.x, p.z, q.x, q.z;
    CongRefl(a, P);
    CongRefl(b, P);
    CongRefl(c, P);
    CongRefl(d, P);
    CongRefl(x1, P);
    Added(a, b, a, b);
    Added(c, d, c, d);
    var da, cb := FMul(FSub(c, d), FAdd(a, b)), FMul(FAdd(c, d), FSub(a, b));
    Multiplied(FSub(c, d), FAdd(a, b), c - d, a + b);
    Multiplied(FAdd(c, d), FSub(a, b), c + d, a - b);
    Added(da, cb, (c - d) * (a + b), (c + d) * (a - b));
    var s, t := a * c - b * d, a * d - b * c;
    Crossed(a, b, c, d);
    ProductIs(FAdd(da, cb), FAdd(da, cb), 2 * s, 2 * s);
    Multiplied(FSub(da, cb), FSub(da, cb), -(2 * t), -(2 * t));
    assert -(2 * t) * -(2 * t) == (2 * t) * (2 * t);
    ProductIs(x1, FMul(FSub(da, cb), FSub(da, cb)), x1, (2 * t) * (2 * t));
  }

  lemma Crossed(a: int, b: int, c: int, d: int)
    ensures (c - d) * (a + b) + (c + d) * (a - b) == 2 * (a * c - b * d)
    ensures (c - d) * (a + b) - (c + d) * (a - b) == -(2 * (a * d - b * c))
  {
    assert (c - d) * (a + b) == c * a + c * b - d * a - d * b;
    assert (c + d) * (a - b) == c * a - c * b + d * a - d * b;
  }

  lemma DiffAddSymmetric(x1: nat, p: Point, q: Point)
    ensures DiffAdd(x1, p, q) == DiffAdd(x1, q, p)
  {
    hide FAdd, FSub;
    var da := FMul(FSub(q.x, q.z), FAdd(p.x, p.z));
    var cb := FMul(FAdd(q.x, q.z), FSub(p.x, p.z));
    MulCommutes(FSub(q.x, q.z), FAdd(p.x, p.z));
    MulCommutes(FAdd(q.x, q.z), FSub(p.x, p.z));
    AddCommutes(da, cb);
    SquareOfDifference(da, cb);
  }

  lemma MulCommutes(x: int, y: int)
    ensures FMul(x, y) == FMul(y, x)
  {
    assert x * y == y * x;
  }

  lemma AddCommutes(x: int, y: int)
    ensures FAdd(x, y) == FAdd(y, x)
  {
  }

  lemma SquareOfDifference(x: int, y: int)
    ensures FMul(FSub(x, y), FSub(x, y)) == FMul(FSub(y, x), FSub(y, x))
  {
    hide Cong;
    var d, e := FSub(x, y), FSub(y, x);
    CongMod(x - y, P);
    CongMod(y - x, P);
    CongMul(d, x - y, d, x - y, P);
    CongMul(e, y - x, e, y - x, P);
    assert (x - y) * (x - y) == (y - x) * (y - x);
    CongSym(e * e, (y - x) * (y - x), P);
    CongTrans(d * d, (x - y) * (x - y), e * e, P);
    CongMod(d * d, P);
    CongTrans(FMul(d, d), d * d, e * e, P);
    CongIsMod(FMul(d, d), e * e, P);
  }

  /** The textbook ladder over bits, least significant first: two points one step apart. */
  function Ladder(x1: nat, bits: Bits): (Point, Point) {
    if bits == [] then (Point(1, 0), Point(x1, 1)) else
    var (a, b) := Ladder(x1, bits[1..]);
    if bits[0] then (DiffAdd(x1, a, b), Double(b)) else (Double(a), DiffAdd(x1, a, b))
  }

  /** Doubling doubles and adding adds what points stand for. */
  ghost predicate GroupLaw(x1: nat, stands: (Point, nat) -> bool) {
    && (forall p, n: nat :: stands(p, n) ==> stands(Double(p), 2 * n))
    && (forall p, q, n: nat :: stands(p, n) && stands(q, n + 1) ==> stands(DiffAdd(x1, p, q), 2 * n + 1))
  }

  /** Under the group law the ladder multiplies the base by the number the bits spell. */
  lemma {:induction false} LadderMultiplies(x1: nat, bits: Bits, stands: (Point, nat) -> bool)
    requires GroupLaw(x1, stands) && stands(Point(1, 0), 0) && stands(Point(x1, 1), 1)
    ensures var (a, b) := Ladder(x1, bits); stands(a, LsbValue(bits)) && stands(b, LsbValue(bits) + 1)
  {
    hide Double, DiffAdd;
    if bits != [] {
      LadderMultiplies(x1, bits[1..], stands);
      var (a, b) := Ladder(x1, bits[1..]);
      var n := LsbValue(bits[1..]);
      assert stands(Double(b), 2 * (n + 1)) && stands(Double(a), 2 * n) && stands(DiffAdd(x1, a, b), 2 * n + 1);
    }
  }

  /** Loose limbs holding a point's coordinates. */
  ghost predicate Holds(x: Five, z: Five, p: Point) {
    Loose(x) && Loose(z) && Residue(x) == p.x && Residue(z) == p.z
  }

  /** One ladder step: point 2 doubled, point 3 replaced by their sum. */
  method Step(x1: Five, x2: Five, z2: Five, x3: Five, z3: Five, ghost p: Point, ghost q: Point)
    returns (nx2: Five, nz2: Five, nx3: Five, nz3: Five)
    requires Loose(x1) && Holds(x2, z2, p) && Holds(x3, z3, q)
    ensures Holds(nx2, nz2, Double(p)) && Holds(nx3, nz3, DiffAdd(Residue(x1), p, q))
  {
    hide Loose, Residue, FAdd, FSub, FMul;
    var a := Sum(x2, z2);
    var aa := Square(a);
    var b := Minus(x2, z2);
    var bb := Square(b);
    var e := Minus(aa, bb);
    var c := Sum(x3, z3);
    var d := Minus(x3, z3);
    var da := Multiply(d, a);
    var cb := Multiply(c, b);
    var s := Sum(da, cb);
    nx3 := Square(s);
    var t := Minus(da, cb);
    t := Square(t);
    nz3 := Multiply(x1, t);
    nx2 := Multiply(aa, bb);
    var e2 := TimesSmall(e, 121665);
    var f := Sum(aa, e2);
    nz2 := Multiply(e, f);
  }

  /** The ladder with its deferred swaps, on limbs. */
  method LadderQuotient(k: ByteString, u: Five) returns (r: Five)
    requires |k| == 32 && Loose(u)
    ensures Loose(r)
    ensures var p := Ladder(Residue(u), StreamBits(k)[..255]).0; Residue(r) == FMul(p.x, FPow(p.z, P - 2))
  {
    hide Loose, Residue, FAdd, FSub, FMul, FPow, StreamBits, Double, DiffAdd;
    ghost var x1, bits := Residue(u), StreamBits(k)[..255];
    SmallElements();
    var x2, z2, x3, z3 := Five(1, 0, 0, 0, 0), Five(0, 0, 0, 0, 0), u, Five(1, 0, 0, 0, 0);
    var swap := 0;
    ghost var a: Point, b: Point := Point(1, 0), Point(x1, 1);
    assert bits[255..] == [];
    var t := 255;
    while t > 0
      invariant 0 <= t <= 255 && 0 <= swap <= 1 && (a, b) == Ladder(x1, bits[t..])
      invariant if swap == 1 then Holds(x2, z2, b) && Holds(x3, z3, a) else Holds(x2, z2, a) && Holds(x3, z3, b)
    {
      t := t - 1;
      var kt := StreamBit(k, t);
      StreamBitIs(k, t);
      assert bits[t..][1..] == bits[t + 1..];
      if swap != kt {
        x2, x3 := x3, x2;
        z2, z3 := z3, z2;
      }
      swap := kt;
      ghost var p, q := if kt == 1 then b else a, if kt == 1 then a else b;
      x2, z2, x3, z3 := Step(u, x2, z2, x3, z3, p, q);
      DiffAddSymmetric(x1, p, q);
      ghost var sum := DiffAdd(x1, a, b);
      a, b := if kt == 1 then sum else Double(a), if kt == 1 then Double(b) else sum;
    }
    assert bits[0..] == bits;
    if swap == 1 {
      x2, x3 := x3, x2;
      z2, z3 := z3, z2;
    }
    var inverse := Invert(z2);
    r := Multiply(x2, inverse);
  }

  lemma SmallElements()
    ensures Loose(Five(1, 0, 0, 0, 0)) && Residue(Five(1, 0, 0, 0, 0)) == 1
    ensures Loose(Five(0, 0, 0, 0, 0)) && Residue(Five(0, 0, 0, 0, 0)) == 0
  {
  }

  /** The scalar with its lowest three bits and top bit cleared and bit 254 set. */
  function Clamp(scalar: ByteString): (k: ByteString)
    requires |scalar| == 32
    ensures |k| == 32
  {
    [scalar[0] - scalar[0] % 8] + scalar[1..31] + [scalar[31] % 64 + 64]
  }

  /** The function of a scalar and a coordinate, over the integers modulo P. */
  function SharedCoordinate(scalar: ByteString, u: ByteString): nat
    requires |scalar| == 32 && |u| == 32
  {
    var p := Ladder(Coordinate(u) % P, StreamBits(Clamp(scalar))[..255]).0;
    FMul(p.x, FPow(p.z, P - 2))
  }

  datatype Shared = Secret(bytes: ByteString) | LowOrderPoint

  /** X25519: limbs, ladder and encodings together compute the function, or refuse its zero. */
  method X25519(scalar: ByteString, u: ByteString) returns (r: Shared)
    requires |scalar| == 32 && |u| == 32
    ensures var v := SharedCoordinate(scalar, u); r == if v == 0 then LowOrderPoint else Secret(LeBytes(v, 32))
    ensures r.Secret? ==> LeValue(r.bytes) == SharedCoordinate(scalar, u) < P
  {
    hide Loose, Residue, FMul, FPow, Ladder, Coordinate, StreamBits, LeBytes, LeValue, Clamp;
    var k := Clamp(scalar);
    var p := FromBytes(u);
    var out := LadderQuotient(k, p);
    var bytes := ToBytes(out);
    SharedBelow(scalar, u);
    ResidueBytes(SharedCoordinate(scalar, u));
    if bytes == seq(32, _ => 0) {
      return LowOrderPoint;
    }
    return Secret(bytes);
  }

  lemma SharedBelow(scalar: ByteString, u: ByteString)
    requires |scalar| == 32 && |u| == 32
    ensures SharedCoordinate(scalar, u) < P
  {
    hide Ladder, Coordinate, StreamBits, Clamp, FPow;
  }

  lemma ResidueBytes(v: nat)
    requires v < P
    ensures LeValue(LeBytes(v, 32)) == v && (LeBytes(v, 32) == seq(32, _ => 0) <==> v == 0)
  {
    ByteCapacity(32);
    LeRoundTrip(v, 32);
    var z: ByteString := seq(32, _ => 0);
    LeZeros([], z);
    assert [] + z == z;
    LeUnique(z);
  }

  lemma ByteCapacity(n: nat)
    requires n == 32
    ensures P < Pow(256, n)
  {
    hide Pow;
    WholeByteValue();
    PowPow(2, 8, n);
    Montgomery.Base2();
    PowAdd(2, 64, 64);
    PowAdd(2, 128, 128);
  }

  /** A clamped scalar is a multiple of eight with bit 254 its highest. */
  lemma ClampedRange(scalar: ByteString)
    requires |scalar| == 32
    ensures var bits := StreamBits(Clamp(scalar));
            !bits[0] && !bits[1] && !bits[2] && bits[254] && !bits[255]
  {
    hide StreamBits;
    var k := Clamp(scalar);
    StreamBitAt(k, 0, 0);
    StreamBitAt(k, 0, 1);
    StreamBitAt(k, 0, 2);
    StreamBitAt(k, 31, 6);
    StreamBitAt(k, 31, 7);
    var low, top := k[0], k[31];
    assert Pow(2, 0) == 1 && Pow(2, 1) == 2 && Pow(2, 2) == 4 && Pow(2, 6) == 64 && Pow(2, 7) == 128;
    assert low % 8 == 0 && 64 <= top < 128;
  }
}
