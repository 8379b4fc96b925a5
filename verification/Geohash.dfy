/** lib/geohash: points of the globe as codes of 64 bits, over exact reals. */
module Geohash {
  import Arithmetic

  datatype Interval = Interval(lo: real, hi: real)

  function Mid(b: Interval): real {
    (b.lo + b.hi) / 2.0
  }

  function Narrow(b: Interval, upper: bool): Interval {
    if upper then Interval(Mid(b), b.hi) else Interval(b.lo, Mid(b))
  }

  /** A cell: an interval of longitudes and one of latitudes. */
  datatype Cell = Cell(lng: Interval, lat: Interval)

  const GLOBE := Cell(Interval(-180.0, 180.0), Interval(-90.0, 90.0))

  /** The interval of direction 0, which is longitude, or 1, which is latitude. */
  function Side(c: Cell, direction: nat): Interval {
    if direction == 0 then c.lng else c.lat
  }

  function WithSide(c: Cell, direction: nat, b: Interval): Cell {
    if direction == 0 then c.(lng := b) else c.(lat := b)
  }

  /** The cell that the first `n` bits lead to; they halve longitude and latitude in turn. */
  function CellOf(bits: seq<bool>, n: nat): Cell
    requires n <= |bits|
  {
    if n == 0 then GLOBE
    else
      var c, d := CellOf(bits, n - 1), (n - 1) % 2;
      WithSide(c, d, Narrow(Side(c, d), bits[n - 1]))
  }

  datatype Point = Point(lng: real, lat: real)

  function Coord(p: Point, direction: nat): real {
    if direction == 0 then p.lng else p.lat
  }

  /** The half of a cell that a point is in. */
  predicate Upper(p: Point, c: Cell, direction: nat) {
    !(Coord(p, direction) < Mid(Side(c, direction)))
  }

  /** The cell of a point after `n` halvings. */
  function CellAt(p: Point, n: nat): Cell {
    if n == 0 then GLOBE
    else
      var c, d := CellAt(p, n - 1), (n - 1) % 2;
      WithSide(c, d, Narrow(Side(c, d), Upper(p, c, d)))
  }

  /** Bit `i` of a point. */
  predicate BitAt(p: Point, i: nat) {
    Upper(p, CellAt(p, i), i % 2)
  }

  /** The first `n` bits of a point. */
  function Bits(p: Point, n: nat): (bits: seq<bool>)
    ensures |bits| == n
  {
    seq(n, i requires 0 <= i < n => BitAt(p, i))
  }

  /** The bits of a point lead to its cells. */
  lemma {:induction false} CellOfBits(p: Point, m: nat, n: nat)
    requires n <= m
    ensures CellOf(Bits(p, m), n) == CellAt(p, n)
    decreases n
  {
    if n > 0 {
      CellOfBits(p, m, n - 1);
      assert Bits(p, m)[n - 1] == BitAt(p, n - 1);
    }
  }

  function Pow2(n: nat): (r: nat)
    ensures r > 0
  {
    if n == 0 then 1 else 2 * Pow2(n - 1)
  }

  /* ---- Where a point is ---- */

  predicate OnGlobe(p: Point) {
    -180.0 <= p.lng <= 180.0 && -90.0 <= p.lat <= 90.0
  }

  predicate Contains(b: Interval, v: real) {
    b.lo <= v <= b.hi
  }

  predicate Inside(c: Cell, p: Point) {
    Contains(c.lng, p.lng) && Contains(c.lat, p.lat)
  }

  /** A point is in each of its cells. */
  lemma {:induction false} InItsCell(p: Point, n: nat)
    requires OnGlobe(p)
    ensures Inside(CellAt(p, n), p)
  {
    if n > 0 {
      InItsCell(p, n - 1);
    }
  }

  /** The interval is `width` halved `k` times. */
  predicate Wide(b: Interval, k: nat, width: real) {
    (b.hi - b.lo) * Pow2(k) as real == width
  }

  lemma Twice(h: real, b: real, w: real)
    requires 2.0 * h == b
    ensures h * (2.0 * w) == b * w
  {
  }

  lemma Halved(b: Interval, upper: bool, k: nat, width: real)
    requires Wide(b, k, width)
    ensures Wide(Narrow(b, upper), k + 1, width)
  {
    var d := Narrow(b, upper);
    assert Pow2(k + 1) as real == 2.0 * Pow2(k) as real;
    Twice(d.hi - d.lo, b.hi - b.lo, Pow2(k) as real);
  }

  lemma {:induction false} Widths(bits: seq<bool>, n: nat)
    requires n <= |bits|
    ensures var c := CellOf(bits, n); Wide(c.lng, (n + 1) / 2, 360.0) && Wide(c.lat, n / 2, 180.0)
    decreases n
  {
    if n == 0 {
      assert Pow2(0) as real == 1.0;
    } else {
      Widths(bits, n - 1);
      var c := CellOf(bits, n - 1);
      if (n - 1) % 2 == 0 {
        Halved(c.lng, bits[n - 1], n / 2, 360.0);
      } else {
        Halved(c.lat, bits[n - 1], (n - 1) / 2, 180.0);
      }
    }
  }

  /* ---- Encoding and decoding ---- */

  function Centre(c: Cell): Point {
    Point(Mid(c.lng), Mid(c.lat))
  }

  function Distance(x: real, y: real): real {
    if x < y then y - x else x - y
  }

  lemma NearMid(b: Interval, k: nat, width: real, v: real)
    requires Wide(b, k, width) && Contains(b, v)
    ensures Distance(Mid(b), v) * (2 * Pow2(k)) as real <= width
  {
    var d, h, w := Distance(Mid(b), v), (b.hi - b.lo) / 2.0, Pow2(k) as real;
    assert 0.0 <= d <= h && (2 * Pow2(k)) as real == 2.0 * w;
    Monotone(d, h, 2.0 * w);
    Twice(h, b.hi - b.lo, w);
  }

  lemma Monotone(x: real, y: real, w: real)
    requires x <= y && w >= 0.0
    ensures x * w <= y * w
  {
  }

  lemma HalfBound(d: real, w: nat, bound: real)
    requires d * (2 * w) as real <= bound
    ensures d * w as real <= bound / 2.0
  {
    assert (2 * w) as real == 2.0 * w as real;
    assert d * (2.0 * w as real) == 2.0 * (d * w as real);
  }

  /** `x` is within `bound`, halved `k` times, of `y`. */
  predicate Near(x: real, y: real, k: nat, bound: real) {
    Distance(x, y) * Pow2(k) as real <= bound
  }

  lemma MidNear(b: Interval, k: nat, width: real, v: real)
    requires Wide(b, k, width) && Contains(b, v)
    ensures Near(Mid(b), v, k, width / 2.0)
  {
    NearMid(b, k, width, v);
    HalfBound(Distance(Mid(b), v), Pow2(k), width);
  }

  /** The centre of its cell of 2k bits is within 90/2^k degrees of latitude and 180/2^k of longitude of a point. */
  lemma CentreNear(p: Point, k: nat)
    requires OnGlobe(p)
    ensures var q := Centre(CellAt(p, 2 * k)); Near(q.lat, p.lat, k, 90.0) && Near(q.lng, p.lng, k, 180.0)
  {
    InItsCell(p, 2 * k);
    CellOfBits(p, 2 * k, 2 * k);
    Widths(Bits(p, 2 * k), 2 * k);
    MidNear(CellAt(p, 2 * k).lng, k, 360.0, p.lng);
    MidNear(CellAt(p, 2 * k).lat, k, 180.0, p.lat);
  }

  predicate Proper(b: Interval) {
    b.lo < b.hi
  }

  lemma {:induction false} CellsProper(bits: seq<bool>, n: nat)
    requires n <= |bits|
    ensures Proper(CellOf(bits, n).lng) && Proper(CellOf(bits, n).lat)
    decreases n
  {
    if n > 0 {
      CellsProper(bits, n - 1);
    }
  }

  /** A cell lies in each cell on the way to it. */
  lemma {:induction false} Nested(bits: seq<bool>, n: nat, m: nat)
    requires n <= m <= |bits|
    ensures var c, d := CellOf(bits, m), CellOf(bits, n);
            d.lng.lo <= c.lng.lo && c.lng.hi <= d.lng.hi && d.lat.lo <= c.lat.lo && c.lat.hi <= d.lat.hi
    decreases m
  {
    if n < m {
      Nested(bits, n, m - 1);
      CellsProper(bits, m - 1);
    }
  }

  predicate StrictlyInside(c: Cell, p: Point) {
    c.lng.lo < p.lng < c.lng.hi && c.lat.lo < p.lat < c.lat.hi
  }

  /** A point strictly inside a cell has its bits and the cells on the way to it. */
  lemma {:induction false} BitsOfCell(bits: seq<bool>, p: Point, n: nat)
    requires n <= |bits| && StrictlyInside(CellOf(bits, |bits|), p)
    ensures CellAt(p, n) == CellOf(bits, n) && forall i {:trigger bits[i]} :: 0 <= i < n ==> bits[i] == BitAt(p, i)
    decreases n
  {
    if n > 0 {
      BitsOfCell(bits, p, n - 1);
      Nested(bits, n, |bits|);
    }
  }

  /** Every sequence of bits is that of the centre of its cell. */
  lemma EncodeDecode(bits: seq<bool>)
    ensures Bits(Centre(CellOf(bits, |bits|)), |bits|) == bits
  {
    CellsProper(bits, |bits|);
    BitsOfCell(bits, Centre(CellOf(bits, |bits|)), |bits|);
  }

  /* ---- Codes ---- */

  function Bit(b: bool): nat {
    if b then 1 else 0
  }

  /** The number that some bits are, the first one highest. */
  function Number(bits: seq<bool>): nat {
    if bits == [] then 0 else 2 * Number(bits[..|bits| - 1]) + Bit(bits[|bits| - 1])
  }

  lemma {:induction false} PowAdd(m: nat, n: nat)
    ensures Pow2(m + n) == Pow2(m) * Pow2(n)
    decreases n
  {
    if n > 0 {
      PowAdd(m, n - 1);
      assert 2 * (Pow2(m) * Pow2(n - 1)) == Pow2(m) * (2 * Pow2(n - 1));
    }
  }

  lemma {:induction false} NumberBound(bits: seq<bool>)
    ensures Number(bits) < Pow2(|bits|)
  {
    if bits != [] {
      NumberBound(bits[..|bits| - 1]);
    }
  }

  lemma Doubled(a: nat, w: nat)
    ensures 2 * (a * w) == a * (2 * w)
  {
  }

  lemma {:induction false} NumberAppend(a: seq<bool>, b: seq<bool>)
    ensures Number(a + b) == Number(a) * Pow2(|b|) + Number(b)
    decreases b
  {
    if b == [] {
      assert a + b == a;
    } else {
      var k := |b| - 1;
      assert (a + b)[..|a + b| - 1] == a + b[..k];
      NumberAppend(a, b[..k]);
      Doubled(Number(a), Pow2(k));
    }
  }

  lemma {:induction false} NumberInjective(a: seq<bool>, b: seq<bool>)
    requires |a| == |b| && Number(a) == Number(b)
    ensures a == b
    decreases a
  {
    if a != [] {
      var k := |a| - 1;
      NumberInjective(a[..k], b[..k]);
      assert a == a[..k] + [a[k]] && b == b[..k] + [b[k]];
    }
  }

  /** The first code of `m` bits in the cell that `scope` leads to. */
  function Lower(scope: seq<bool>, m: nat): nat
    requires |scope| <= m
  {
    Number(scope) * Pow2(m - |scope|)
  }

  /** A code lies between the bounds of a cell if and only if it begins with the bits of the cell. */
  lemma InRange(scope: seq<bool>, bits: seq<bool>)
    requires |scope| <= |bits|
    ensures var low, w := Lower(scope, |bits|), Pow2(|bits| - |scope|); low <= Number(bits) < low + w <==> bits[..|scope|] == scope
  {
    var p := |scope|;
    var head, tail, w := bits[..p], bits[p..], Pow2(|bits| - p);
    assert bits == head + tail;
    NumberAppend(head, tail);
    NumberBound(tail);
    SameQuotient(Number(scope), Number(head), w, Number(tail));
    if Number(head) == Number(scope) {
      NumberInjective(head, scope);
    }
  }

  lemma SameQuotient(a: nat, b: nat, w: nat, r: nat)
    requires r < w
    ensures a * w <= b * w + r < a * w + w <==> a == b
  {
    if a < b {
      assert (a + 1) * w <= b * w;
    } else if b < a {
      assert (b + 1) * w <= a * w;
    }
  }

  lemma FirstBits(p: Point, n: nat, m: nat)
    requires n <= m
    ensures Bits(p, m)[..n] == Bits(p, n)
  {
  }

  /* ---- Bytes ---- */

  type Byte = b: nat | b < 256

  function At(bits: seq<bool>, i: nat): nat {
    if i < |bits| then Bit(bits[i]) else 0
  }

  /** Eight bits in a byte, the first one highest; bits that are missing count as 0. */
  function ByteAt(bits: seq<bool>, j: nat): Byte {
    128 * At(bits, 8 * j) + 64 * At(bits, 8 * j + 1) + 32 * At(bits, 8 * j + 2) + 16 * At(bits, 8 * j + 3)
    + 8 * At(bits, 8 * j + 4) + 4 * At(bits, 8 * j + 5) + 2 * At(bits, 8 * j + 6) + At(bits, 8 * j + 7)
  }

  function Packed(bits: seq<bool>, len: nat): (r: seq<Byte>)
    ensures |r| == len && forall j {:trigger r[j]} :: 0 <= j < len ==> r[j] == ByteAt(bits, j)
  {
    seq(len, j requires 0 <= j < len => ByteAt(bits, j))
  }

  function Mask(t: nat): nat
    requires t < 8
  {
    if t == 0 then 128 else if t == 1 then 64 else if t == 2 then 32 else if t == 3 then 16
    else if t == 4 then 8 else if t == 5 then 4 else if t == 6 then 2 else 1
  }

  /** Whether a byte and a mask have a bit in common. */
  predicate Masked(code: Byte, t: nat)
    requires t < 8
  {
    (if t == 0 then code / 128 else if t == 1 then code / 64 else if t == 2 then code / 32 else if t == 3 then code / 16
     else if t == 4 then code / 8 else if t == 5 then code / 4 else if t == 6 then code / 2 else code) % 2 == 1
  }

  /** The bit that stands for `m` in a number. */
  lemma BitIs(n: nat, m: nat, high: nat, bit: nat, low: nat)
    requires n == (2 * high + bit) * m + low && bit <= 1 && low < m
    ensures n / m % 2 == bit
  {
    Arithmetic.DivIs(n, m, 2 * high + bit, low);
  }

  predicate AreBits(v: seq<nat>) {
    |v| == 8 && forall i :: 0 <= i < 8 ==> v[i] <= 1
  }

  function Sum(v: seq<nat>): Byte
    requires AreBits(v)
  {
    128 * v[0] + 64 * v[1] + 32 * v[2] + 16 * v[3] + 8 * v[4] + 4 * v[5] + 2 * v[6] + v[7]
  }

  lemma HighBits(v: seq<nat>, t: nat)
    requires AreBits(v) && t < 4
    ensures Masked(Sum(v), t) <==> v[t] == 1
  {
    var low := 8 * v[4] + 4 * v[5] + 2 * v[6] + v[7];
    if t == 0 {
      BitIs(Sum(v), 128, 0, v[0], 64 * v[1] + 32 * v[2] + 16 * v[3] + low);
    } else if t == 1 {
      BitIs(Sum(v), 64, v[0], v[1], 32 * v[2] + 16 * v[3] + low);
    } else if t == 2 {
      BitIs(Sum(v), 32, 2 * v[0] + v[1], v[2], 16 * v[3] + low);
    } else {
      BitIs(Sum(v), 16, 4 * v[0] + 2 * v[1] + v[2], v[3], low);
    }
  }

  lemma LowBits(v: seq<nat>, t: nat)
    requires AreBits(v) && 4 <= t < 8
    ensures Masked(Sum(v), t) <==> v[t] == 1
  {
    var high := 8 * v[0] + 4 * v[1] + 2 * v[2] + v[3];
    if t == 4 {
      BitIs(Sum(v), 8, high, v[4], 4 * v[5] + 2 * v[6] + v[7]);
    } else if t == 5 {
      BitIs(Sum(v), 4, 2 * high + v[4], v[5], 2 * v[6] + v[7]);
    } else if t == 6 {
      BitIs(Sum(v), 2, 4 * high + 2 * v[4] + v[5], v[6], v[7]);
    } else {
      BitIs(Sum(v), 1, 8 * high + 4 * v[4] + 2 * v[5] + v[6], v[7], 0);
    }
  }

  lemma MaskedIs(bits: seq<bool>, j: nat, t: nat)
    requires t < 8
    ensures Masked(ByteAt(bits, j), t) <==> At(bits, 8 * j + t) == 1
  {
    var v: seq<nat> := [At(bits, 8 * j), At(bits, 8 * j + 1), At(bits, 8 * j + 2), At(bits, 8 * j + 3),
                        At(bits, 8 * j + 4), At(bits, 8 * j + 5), At(bits, 8 * j + 6), At(bits, 8 * j + 7)];
    assert ByteAt(bits, j) == Sum(v);
    if t < 4 {
      HighBits(v, t);
    } else {
      LowBits(v, t);
    }
  }

  /** Setting the bit at `n` adds its mask to its byte, and leaves the others. */
  lemma OneBit(bits: seq<bool>, upper: bool, j: nat)
    ensures var n := |bits|;
            ByteAt(bits + [upper], j) == ByteAt(bits, j) + if upper && j == n / 8 then Mask(n % 8) else 0
  {
    var n, more := |bits|, bits + [upper];
    assert forall i {:trigger At(more, i)} :: At(more, i) == if i == n then Bit(upper) else At(bits, i);
  }

  lemma NumberNext(b: seq<bool>, i: nat)
    requires i < |b|
    ensures Number(b[..i + 1]) == 2 * Number(b[..i]) + At(b, i)
  {
    assert b[..i + 1][..i] == b[..i];
  }

  lemma NumberOf8(b: seq<bool>)
    requires |b| == 8
    ensures Number(b) == ByteAt(b, 0)
  {
    NumberNext(b, 0);
    NumberNext(b, 1);
    NumberNext(b, 2);
    NumberNext(b, 3);
    NumberNext(b, 4);
    NumberNext(b, 5);
    NumberNext(b, 6);
    NumberNext(b, 7);
    assert b[..0] == [] && b[..8] == b;
  }

  /** binary.BigEndian. */
  function BigEndian(bytes: seq<Byte>): nat {
    if bytes == [] then 0 else 256 * BigEndian(bytes[..|bytes| - 1]) + bytes[|bytes| - 1]
  }

  lemma {:induction false} BigEndianIs(bits: seq<bool>, len: nat)
    requires 8 * len <= |bits|
    ensures BigEndian(Packed(bits, len)) == Number(bits[..8 * len])
    decreases len
  {
    if len > 0 {
      assert 8 * (len - 1) + 8 == 8 * len;
      BigEndianIs(bits, len - 1);
      LastByte(bits, len - 1);
      NextByte(bits, len - 1);
    } else {
      assert bits[..0] == [] && Packed(bits, 0) == [];
    }
  }

  lemma LastByte(bits: seq<bool>, k: nat)
    ensures BigEndian(Packed(bits, k + 1)) == 256 * BigEndian(Packed(bits, k)) + ByteAt(bits, k)
  {
    assert Packed(bits, k + 1)[..k] == Packed(bits, k);
  }

  lemma NextByte(bits: seq<bool>, k: nat)
    requires 8 * k + 8 <= |bits|
    ensures Number(bits[..8 * k + 8]) == 256 * Number(bits[..8 * k]) + ByteAt(bits, k)
  {
    var head, b := bits[..8 * k], bits[8 * k..8 * k + 8];
    assert bits[..8 * k + 8] == head + b;
    NumberAppend(head, b);
    NumberOf8(b);
    SameByte(bits, k);
    assert Pow2(8) == 256;
  }

  lemma SameByte(bits: seq<bool>, k: nat)
    requires 8 * k + 8 <= |bits|
    ensures ByteAt(bits[8 * k..8 * k + 8], 0) == ByteAt(bits, k)
  {
    var b := bits[8 * k..8 * k + 8];
    assert forall t {:trigger At(b, t)} :: 0 <= t < 8 ==> At(b, t) == At(bits, 8 * k + t);
  }

  function Zeros(n: nat): (z: seq<bool>)
    ensures |z| == n && forall i :: 0 <= i < n ==> !z[i]
  {
    seq(n, _ => false)
  }

  lemma {:induction false} NumberOfZeros(n: nat)
    ensures Number(Zeros(n)) == 0
  {
    if n > 0 {
      assert Zeros(n)[..n - 1] == Zeros(n - 1);
      NumberOfZeros(n - 1);
    }
  }

  /** The bytes of a scope, filled up to eight, are the first code of its cell. */
  lemma ScopeNumber(scope: seq<bool>)
    requires |scope| <= 64
    ensures BigEndian(Packed(scope, 8)) == Lower(scope, 64)
  {
    var n := 64 - |scope|;
    var bits := scope + Zeros(n);
    assert Packed(scope, 8) == Packed(bits, 8) by {
      forall j | 0 <= j < 8 ensures ByteAt(scope, j) == ByteAt(bits, j) {
        SameAt(scope, n);
      }
    }
    BigEndianIs(bits, 8);
    assert bits[..64] == bits;
    NumberAppend(scope, Zeros(n));
    NumberOfZeros(n);
  }

  lemma SameAt(scope: seq<bool>, n: nat)
    ensures forall i {:trigger At(scope, i)} {:trigger At(scope + Zeros(n), i)} :: At(scope + Zeros(n), i) == At(scope, i)
  {
  }

  function BitsOfByte(b: Byte): (r: seq<bool>)
    ensures |r| == 8 && forall t {:trigger r[t]} :: 0 <= t < 8 ==> r[t] == Masked(b, t)
  {
    seq(8, t requires 0 <= t < 8 => Masked(b, t))
  }

  /** The bits of some bytes. */
  function Unpacked(bytes: seq<Byte>): (bits: seq<bool>)
    ensures |bits| == 8 * |bytes|
  {
    if bytes == [] then []
    else Unpacked(bytes[..|bytes| - 1]) + BitsOfByte(bytes[|bytes| - 1])
  }

  lemma {:induction false} UnpackedPacked(bits: seq<bool>, len: nat)
    requires 8 * len <= |bits|
    ensures Unpacked(Packed(bits, len)) == bits[..8 * len]
    decreases len
  {
    if len > 0 {
      UnpackedPacked(bits, len - 1);
      LastUnpacked(bits, len - 1);
      SliceLonger(bits, 8 * (len - 1), 8 * len);
    }
  }

  lemma LastUnpacked(bits: seq<bool>, k: nat)
    requires 8 * k + 8 <= |bits|
    ensures Unpacked(Packed(bits, k + 1)) == Unpacked(Packed(bits, k)) + bits[8 * k..8 * k + 8]
  {
    assert Packed(bits, k + 1)[..k] == Packed(bits, k);
    ByteUnpacked(bits, k);
  }

  lemma SliceLonger(bits: seq<bool>, a: nat, b: nat)
    requires a <= b <= |bits|
    ensures bits[..b] == bits[..a] + bits[a..b]
  {
  }

  lemma ByteUnpacked(bits: seq<bool>, k: nat)
    requires 8 * k + 8 <= |bits|
    ensures BitsOfByte(ByteAt(bits, k)) == bits[8 * k..8 * k + 8]
  {
    forall t | 0 <= t < 8 ensures Masked(ByteAt(bits, k), t) == bits[8 * k + t] {
      MaskedIs(bits, k, t);
    }
  }

  /** binary.BigEndian.PutUint64 and the like. */
  function ToBytes(code: nat, len: nat): (r: seq<Byte>)
    ensures |r| == len
  {
    if len == 0 then [] else ToBytes(code / 256, len - 1) + [code % 256]
  }

  lemma {:induction false} BytesBack(bytes: seq<Byte>)
    ensures ToBytes(BigEndian(bytes), |bytes|) == bytes
    decreases bytes
  {
    if bytes != [] {
      var k := |bytes| - 1;
      BytesBack(bytes[..k]);
      assert BigEndian(bytes) / 256 == BigEndian(bytes[..k]) && BigEndian(bytes) % 256 == bytes[k];
    }
  }

  lemma {:induction false} CodeBack(code: nat, len: nat)
    requires code < Pow2(8 * len)
    ensures BigEndian(ToBytes(code, len)) == code
    decreases len
  {
    if len > 0 {
      PowAdd(8 * (len - 1), 8);
      assert Pow2(8) == 256 && code / 256 < Pow2(8 * (len - 1));
      CodeBack(code / 256, len - 1);
      assert ToBytes(code, len)[..len - 1] == ToBytes(code / 256, len - 1);
    }
  }

  lemma {:induction false} PackedUnpacked(bytes: seq<Byte>)
    ensures BigEndian(bytes) == Number(Unpacked(bytes))
    decreases bytes
  {
    if bytes != [] {
      var k := |bytes| - 1;
      PackedUnpacked(bytes[..k]);
      var b := BitsOfByte(bytes[k]);
      NumberAppend(Unpacked(bytes[..k]), b);
      NumberOf8(b);
      SumOfMasked(bytes[k], b);
      assert Pow2(8) == 256;
    }
  }

  lemma HalfOf(code: nat, m: nat)
    requires m > 0
    ensures code / m == 2 * (code / (2 * m)) + code / m % 2
  {
    var q, r := code / m, code % m;
    var k, b := q / 2, q % 2;
    assert q == 2 * k + b && code == q * m + r;
    assert (2 * k + b) * m == k * (2 * m) + b * m;
    assert b * m <= m;
    Arithmetic.DivIs(code, 2 * m, k, b * m + r);
  }

  lemma SumOfMasked(code: Byte, b: seq<bool>)
    requires |b| == 8 && forall t :: 0 <= t < 8 ==> b[t] == Masked(code, t)
    ensures ByteAt(b, 0) == code
  {
    Telescope(code);
    BitsMasked(code, b);
  }

  lemma Telescope(code: Byte)
    ensures code == 128 * (code / 128 % 2) + 64 * (code / 64 % 2) + 32 * (code / 32 % 2) + 16 * (code / 16 % 2)
                    + 8 * (code / 8 % 2) + 4 * (code / 4 % 2) + 2 * (code / 2 % 2) + code / 1 % 2
  {
    LowHalf(code);
    HighHalf(code);
  }

  lemma LowHalf(code: Byte)
    ensures code == 16 * (code / 16) + 8 * (code / 8 % 2) + 4 * (code / 4 % 2) + 2 * (code / 2 % 2) + code / 1 % 2
  {
    HalfOf(code, 1);
    HalfOf(code, 2);
    HalfOf(code, 4);
    HalfOf(code, 8);
  }

  lemma HighHalf(code: Byte)
    ensures code / 16 == 8 * (code / 128 % 2) + 4 * (code / 64 % 2) + 2 * (code / 32 % 2) + code / 16 % 2
  {
    HalfOf(code, 16);
    HalfOf(code, 32);
    HalfOf(code, 64);
    HalfOf(code, 128);
  }

  lemma BitsMasked(code: Byte, b: seq<bool>)
    requires |b| == 8 && forall t :: 0 <= t < 8 ==> b[t] == Masked(code, t)
    ensures At(b, 0) == code / 128 % 2 && At(b, 1) == code / 64 % 2 && At(b, 2) == code / 32 % 2 && At(b, 3) == code / 16 % 2
    ensures At(b, 4) == code / 8 % 2 && At(b, 5) == code / 4 % 2 && At(b, 6) == code / 2 % 2 && At(b, 7) == code / 1 % 2
  {
    assert b[0] == Masked(code, 0) && b[1] == Masked(code, 1) && b[2] == Masked(code, 2) && b[3] == Masked(code, 3);
    assert b[4] == Masked(code, 4) && b[5] == Masked(code, 5) && b[6] == Masked(code, 6) && b[7] == Masked(code, 7);
  }

  /* ---- The whole ---- */

  /** The code of a point, in `len` bytes. */
  function CodeOf(p: Point, len: nat): nat {
    BigEndian(Packed(Bits(p, 8 * len), len))
  }

  function Encode(p: Point): nat {
    CodeOf(p, 8)
  }

  function Decode(code: nat): Point {
    var bits := Unpacked(ToBytes(code, 8));
    Centre(CellOf(bits, |bits|))
  }

  /** Decoding the code of a point misses it by at most 90/2^32 degrees of latitude and 180/2^32 of longitude. */
  lemma DecodesNear(p: Point)
    requires OnGlobe(p)
    ensures var q := Decode(Encode(p)); Near(q.lat, p.lat, 32, 90.0) && Near(q.lng, p.lng, 32, 180.0)
  {
    CodedBits(p, 8);
    CentreNear(p, 32);
  }

  /** The code of a point lies in the range of its own cell of `n` bits, and that of another point just if it has the same `n` bits. */
  lemma CodeInRange(p: Point, q: Point, n: nat)
    requires n <= 64
    ensures var low := Lower(Bits(p, n), 64); low <= Encode(q) < low + Pow2(64 - n) <==> Bits(q, n) == Bits(p, n)
  {
    CodeInCell(p, q, n, 8);
  }

  lemma CodeInCell(p: Point, q: Point, n: nat, len: nat)
    requires n <= 8 * len
    ensures var low := Lower(Bits(p, n), 8 * len); low <= CodeOf(q, len) < low + Pow2(8 * len - n) <==> Bits(q, n) == Bits(p, n)
  {
    FirstBits(q, n, 8 * len);
    CodeBetween(Bits(p, n), Bits(q, 8 * len), Bits(q, n), n, len);
  }

  lemma CodeBetween(scope: seq<bool>, bits: seq<bool>, head: seq<bool>, n: nat, len: nat)
    requires |scope| == n <= |bits| == 8 * len && bits[..n] == head
    ensures var low, code := Lower(scope, 8 * len), BigEndian(Packed(bits, len));
            low <= code < low + Pow2(8 * len - n) <==> head == scope
  {
    BigEndianIs(bits, len);
    assert bits[..8 * len] == bits;
    InRange(scope, bits);
  }

  /** The upper bound that toRange computes for the cell with number `a` among those of `n` bits, which begins at `low`. */
  function UpperBound(a: nat, low: nat, n: nat, m: nat): nat
    requires n <= m
  {
    if a + 1 < Pow2(n) then low + Pow2(m - n) else 0
  }

  /** A code lies between the bounds of its own cell if and only if the cell is not the last one. */
  predicate RangeIs(a: nat, low: nat, n: nat, m: nat, code: nat)
    requires n <= m
  {
    low <= code < UpperBound(a, low, n, m) <==> a + 1 < Pow2(n)
  }

  lemma RangeHolds(p: Point, n: nat)
    requires n <= 64
    ensures RangeIs(Number(Bits(p, n)), Lower(Bits(p, n), 64), n, 64, Encode(p))
  {
    RangeOfBytes(p, n, 8);
  }

  lemma RangeOfBytes(p: Point, n: nat, len: nat)
    requires n <= 8 * len
    ensures RangeIs(Number(Bits(p, n)), Lower(Bits(p, n), 8 * len), n, 8 * len, CodeOf(p, len))
  {
    CodeInCell(p, p, n, len);
    Bounded(Number(Bits(p, n)), Lower(Bits(p, n), 8 * len), n, 8 * len, CodeOf(p, len));
  }

  lemma Bounded(a: nat, low: nat, n: nat, m: nat, code: nat)
    requires n <= m && low <= code < low + Pow2(m - n)
    ensures RangeIs(a, low, n, m, code)
  {
  }

  /** The north-eastern corner of the globe is in the last cell at every precision, so its own range misses it. */
  lemma CornerMissed(n: nat)
    requires n <= 64
    ensures var p := Point(180.0, 90.0);
            var a, low := Number(Bits(p, n)), Lower(Bits(p, n), 64);
            OnGlobe(p) && UpperBound(a, low, n, 64) == 0 && !(low <= Encode(p) < UpperBound(a, low, n, 64))
  {
    var p := Point(180.0, 90.0);
    CornerBits(p, n);
    NumberOfOnes(Bits(p, n));
  }

  lemma CornerBits(p: Point, n: nat)
    requires p == Point(180.0, 90.0)
    ensures forall i {:trigger Bits(p, n)[i]} :: 0 <= i < n ==> Bits(p, n)[i]
  {
    forall i | 0 <= i < n ensures BitAt(p, i) {
      CornerCell(p, i);
    }
  }

  lemma {:induction false} CornerCell(p: Point, n: nat)
    requires p == Point(180.0, 90.0)
    ensures var c := CellAt(p, n); c.lng.lo < c.lng.hi == 180.0 && c.lat.lo < c.lat.hi == 90.0
  {
    if n > 0 {
      CornerCell(p, n - 1);
    }
  }

  lemma {:induction false} NumberOfOnes(bits: seq<bool>)
    requires forall i :: 0 <= i < |bits| ==> bits[i]
    ensures Number(bits) + 1 == Pow2(|bits|)
    decreases bits
  {
    if bits != [] {
      NumberOfOnes(bits[..|bits| - 1]);
    }
  }

  lemma CodedBits(p: Point, len: nat)
    ensures var bytes := Packed(Bits(p, 8 * len), len); ToBytes(BigEndian(bytes), len) == bytes && Unpacked(bytes) == Bits(p, 8 * len)
    ensures CellOf(Bits(p, 8 * len), 8 * len) == CellAt(p, 8 * len)
  {
    var bits := Bits(p, 8 * len);
    BytesBack(Packed(bits, len));
    UnpackedPacked(bits, len);
    assert bits[..8 * len] == bits;
    CellOfBits(p, 8 * len, 8 * len);
  }

  /** Encoding what a code decodes to gives the code. */
  lemma EncodesBack(code: nat)
    requires code < Pow2(64)
    ensures Encode(Decode(code)) == code
  {
    var bits := Unpacked(ToBytes(code, 8));
    EncodeDecode(bits);
    BigEndianIs(bits, 8);
    assert bits[..64] == bits;
    PackedUnpacked(ToBytes(code, 8));
    CodeBack(code, 8);
  }

  /* ---- The same, as it is done ---- */

  lemma PackedMore(bits: seq<bool>, upper: bool, len: nat)
    requires |bits| / 8 < len
    ensures var before, after, j := Packed(bits, len), Packed(bits + [upper], len), |bits| / 8;
            after == if upper then before[j := ByteAt(bits + [upper], j)] else before
    ensures upper ==> ByteAt(bits + [upper], |bits| / 8) == ByteAt(bits, |bits| / 8) + Mask(|bits| % 8)
  {
    forall j | 0 <= j < len ensures ByteAt(bits + [upper], j) == ByteAt(bits, j) + if upper && j == |bits| / 8 then Mask(|bits| % 8) else 0 {
      OneBit(bits, upper, j);
    }
  }

  /** Sets bit `n` of the bytes, which is 0 so far. */
  method SetBit(hash: array<Byte>, n: nat, ghost bits: seq<bool>)
    requires |bits| == n && n / 8 < hash.Length && hash[..] == Packed(bits, hash.Length)
    modifies hash
    ensures hash[..] == Packed(bits + [true], hash.Length)
  {
    PackedMore(bits, true, hash.Length);
    assert hash[n / 8] == hash[..][n / 8] == ByteAt(bits, n / 8);
    hash[n / 8] := hash[n / 8] + Mask(n % 8);
    assert hash[..] == Packed(bits, hash.Length)[n / 8 := ByteAt(bits + [true], n / 8)];
  }

  /** The bytes and the cell after `n` halvings. */
  ghost predicate Coded(p: Point, n: nat, bytes: seq<Byte>, box: Cell) {
    bytes == Packed(Bits(p, n), |bytes|) && box == CellAt(p, n)
  }

  /** Halves the cell in one direction and records on which side the point is. */
  method Halve(p: Point, direction: nat, n: nat, hash: array<Byte>, box: Cell) returns (half: Cell, precision: nat)
    requires direction == n % 2 && n / 8 < hash.Length
    requires Coded(p, n, hash[..], box)
    modifies hash
    ensures precision == n + 1 && Coded(p, precision, hash[..], half)
  {
    var side := Side(box, direction);
    var mid := (side.lo + side.hi) / 2.0;
    var upper := !(Coord(p, direction) < mid);
    ghost var bytes := hash[..];
    if upper {
      SetBit(hash, n, Bits(p, n));
      half := WithSide(box, direction, Interval(mid, side.hi));
    } else {
      PackedMore(Bits(p, n), false, hash.Length);
      half := WithSide(box, direction, Interval(side.lo, mid));
    }
    precision := n + 1;
    CodedMore(p, n, precision, bytes, hash[..], box, upper, half);
  }

  lemma CodedMore(p: Point, n: nat, next: nat, bytes: seq<Byte>, more: seq<Byte>, box: Cell, upper: bool, half: Cell)
    requires next == n + 1 && half == WithSide(box, n % 2, Narrow(Side(box, n % 2), upper))
    requires Coded(p, n, bytes, box) && upper == !(Coord(p, n % 2) < Mid(Side(box, n % 2)))
    requires |more| == |bytes| && more == Packed(Bits(p, n) + [upper], |more|)
    ensures Coded(p, next, more, half)
  {
    assert Bits(p, n + 1) == Bits(p, n) + [upper];
  }

  method Encode0(p: Point, bitSize: nat) returns (hash: array<Byte>, box: Cell)
    ensures fresh(hash) && hash.Length == (bitSize + 7) / 8 && Coded(p, bitSize, hash[..], box)
  {
    box := GLOBE;
    var hashLen := bitSize / 8;
    if bitSize % 8 > 0 {
      hashLen := hashLen + 1;
    }
    hash := new Byte[hashLen](_ => 0);
    var precision := 0;
    NothingCoded(p, precision, hash[..], box);
    while precision < bitSize
      invariant precision <= bitSize && (precision < bitSize ==> precision % 2 == 0) && fresh(hash) && hash.Length == hashLen
      invariant Coded(p, precision, hash[..], box)
    {
      box, precision := EncodePair(p, precision, bitSize, hash, box);
    }
    assert precision == bitSize;
  }

  lemma NothingCoded(p: Point, n: nat, bytes: seq<Byte>, box: Cell)
    requires n == 0 && box == GLOBE && forall i {:trigger bytes[i]} :: 0 <= i < |bytes| ==> bytes[i] == 0
    ensures Coded(p, n, bytes, box)
  {
  }

  /** The inner loop of encode0, over the two directions. */
  method EncodePair(p: Point, start: nat, bitSize: nat, hash: array<Byte>, from: Cell) returns (box: Cell, precision: nat)
    requires start < bitSize && start % 2 == 0 && bitSize <= 8 * hash.Length && Coded(p, start, hash[..], from)
    modifies hash
    ensures start < precision <= bitSize && (precision < bitSize ==> precision % 2 == 0) && Coded(p, precision, hash[..], box)
  {
    box, precision := from, start;
    var direction := 0;
    while direction < 2
      invariant direction <= 2 && precision == start + direction <= bitSize && (direction < 2 ==> precision < bitSize)
      invariant Coded(p, precision, hash[..], box)
    {
      box, precision := Halve(p, direction, precision, hash, box);
      if precision == bitSize {
        break;
      }
      direction := direction + 1;
    }
  }

  method EncodePoint(p: Point) returns (code: nat)
    ensures code == Encode(p)
  {
    code := EncodeBytes(p, 8);
  }

  method EncodeBytes(p: Point, len: nat) returns (code: nat)
    ensures code == CodeOf(p, len)
  {
    var buf, _ := Encode0(p, 8 * len);
    assert buf.Length == len;
    code := BigEndian(buf[..]);
  }

  method Decode0(hash: array<Byte>) returns (box: Cell)
    ensures box == CellOf(Unpacked(hash[..]), 8 * hash.Length)
  {
    box := GLOBE;
    var direction, i := 0, 0;
    ghost var bits := Unpacked(hash[..]);
    while i < hash.Length
      invariant 0 <= i <= hash.Length && direction == 0 && box == CellOf(bits, 8 * i)
    {
      UnpackedAt(hash[..], i);
      box, direction := DecodeByte(hash[i], direction, box, bits, 8 * i);
      i := i + 1;
    }
  }

  lemma {:induction false} UnpackedAt(bytes: seq<Byte>, i: nat)
    requires i < |bytes|
    ensures Unpacked(bytes)[8 * i..8 * i + 8] == BitsOfByte(bytes[i])
    decreases bytes
  {
    var k := |bytes| - 1;
    if i < k {
      UnpackedAt(bytes[..k], i);
      assert Unpacked(bytes)[8 * i..8 * i + 8] == Unpacked(bytes[..k])[8 * i..8 * i + 8];
    }
  }

  /** The inner loop of decode0. */
  method DecodeByte(code: Byte, from: nat, before: Cell, ghost bits: seq<bool>, ghost n: nat) returns (box: Cell, direction: nat)
    requires n % 8 == 0 && n + 8 <= |bits| && bits[n..n + 8] == BitsOfByte(code) && from == 0 && before == CellOf(bits, n)
    ensures box == CellOf(bits, n + 8) && direction == 0
  {
    box, direction := before, from;
    var j := 0;
    while j < 8
      invariant 0 <= j <= 8 && direction == j % 2 && box == CellOf(bits, n + j)
    {
      Parity(n, j);
      assert bits[n + j] == bits[n..n + 8][j];
      var upper := Masked(code, j);
      box := DecodeBit(box, direction, upper, bits, n + j);
      direction := (direction + 1) % 2;
      j := j + 1;
    }
  }

  method DecodeBit(box: Cell, direction: nat, upper: bool, ghost bits: seq<bool>, ghost n: nat) returns (half: Cell)
    requires n < |bits| && box == CellOf(bits, n) && direction == n % 2 && upper == bits[n]
    ensures half == CellOf(bits, n + 1)
  {
    var side := Side(box, direction);
    var mid := (side.lo + side.hi) / 2.0;
    half := WithSide(box, direction, if upper then Interval(mid, side.hi) else Interval(side.lo, mid));
  }

  lemma Parity(h: nat, j: nat)
    requires h % 8 == 0
    ensures (h + j) % 2 == j % 2 && (j % 2 + 1) % 2 == (j + 1) % 2
  {
    Arithmetic.ModIs(h + j, 2, 4 * (h / 8) + j / 2, j % 2);
  }

  method DecodeCode(code: nat) returns (p: Point)
    ensures p == Decode(code)
  {
    var bytes := ToBytes(code, 8);
    var buf := new Byte[8](i requires 0 <= i < 8 => bytes[i]);
    assert buf[..] == bytes;
    var box := Decode0(buf);
    p := Point((box.lng.lo + box.lng.hi) / 2.0, (box.lat.lo + box.lat.hi) / 2.0);
  }

  /** ToInt: fewer than eight bytes are filled up. */
  method ToInt(buf: seq<Byte>, ghost scope: seq<bool>) returns (code: nat)
    requires |buf| <= 8 && |scope| <= 8 * |buf| && buf == Packed(scope, |buf|)
    ensures code == Lower(scope, 64)
  {
    var padded: seq<Byte> := buf + seq(8 - |buf|, _ => 0);
    assert padded == Packed(scope, 8);
    ScopeNumber(scope);
    code := BigEndian(padded);
  }

  /** toRange, in 64-bit arithmetic: the upper bound of the last cell wraps to 0. */
  method ToRange(buf: seq<Byte>, precision: nat, ghost scope: seq<bool>) returns (lower: nat, upper: nat)
    requires 1 <= precision <= 64 && |scope| == precision && |buf| == (precision + 7) / 8 && buf == Packed(scope, |buf|)
    ensures lower == Lower(scope, 64) && upper == UpperBound(Number(scope), lower, precision, 64)
  {
    lower := ToInt(buf, scope);
    var radius := Pow2(64 - precision);
    upper := (lower + radius) % Pow2(64);
    NumberBound(scope);
    CellEnd(Number(scope), precision, 64);
    Wrapped(lower + radius, Pow2(64));
  }

  lemma Wrapped(e: nat, p: nat)
    requires 0 < e <= p
    ensures e % p == if e < p then e else 0
  {
    if e < p {
      Arithmetic.ModIs(e, p, 0, e);
    } else {
      Arithmetic.ModIs(e, p, 1, 0);
    }
  }

  /** Where the cell with number `a` among those of `n` bits ends, in codes of `m` bits. */
  lemma CellEnd(a: nat, n: nat, m: nat)
    requires n <= m && a < Pow2(n)
    ensures var e := a * Pow2(m - n) + Pow2(m - n); if a + 1 < Pow2(n) then e < Pow2(m) else e == Pow2(m)
  {
    var w := Pow2(m - n);
    PowAdd(n, m - n);
    assert a * w + w == (a + 1) * w;
    if a + 1 < Pow2(n) {
      Wider(a + 1, Pow2(n), w);
    }
  }

  lemma Wider(a: nat, b: nat, w: nat)
    requires a < b && w > 0
    ensures a * w < b * w
  {
    Arithmetic.AtLeast(b - a, w);
    assert b * w == a * w + (b - a) * w;
  }

  /* ---- Which half is which ---- */

  /** A cell has its lower edges and not its upper ones, but for the edges of the globe. */
  lemma {:induction false} HalfOpen(p: Point, n: nat)
    requires OnGlobe(p)
    ensures var c := CellAt(p, n); (p.lng < c.lng.hi || c.lng.hi == 180.0) && (p.lat < c.lat.hi || c.lat.hi == 90.0)
  {
    if n > 0 {
      HalfOpen(p, n - 1);
      InItsCell(p, n - 1);
    }
  }

  /** The first bit says east, the second north. */
  lemma EastNorth(p: Point)
    ensures BitAt(p, 0) <==> p.lng >= 0.0
    ensures BitAt(p, 1) <==> p.lat >= 0.0
  {
    assert Mid(GLOBE.lng) == 0.0 && Mid(GLOBE.lat) == 0.0;
    assert CellAt(p, 1).lat == GLOBE.lat;
  }

  /** But for the last cell of a precision, the bounds hold the codes of exactly the points with those bits. */
  lemma RangeExact(p: Point, q: Point, n: nat)
    requires n <= 64 && Number(Bits(p, n)) + 1 < Pow2(n)
    ensures var low := Lower(Bits(p, n), 64);
            low <= Encode(q) < UpperBound(Number(Bits(p, n)), low, n, 64) <==> Bits(q, n) == Bits(p, n)
  {
    CodeInRange(p, q, n);
  }
}
