/** PNG row filters and their inverse (crates/otter-gfx/src/png.rs; the encoding side is
    scripts/gen-gfx-fixtures.py, section 9 of the PNG specification). */
module PngFilters {
  import opened Bytes
  import opened BitStreams
  import opened Congruence

  datatype PngError =
    | BadSignature | Truncated | CrcMismatch | MissingIhdr | InvalidIhdr | MissingPlte | UnsupportedColorType
    | InvalidFilterType | ZeroDimensions | Adam7NotSupported | Inflate(cause: InflateError)

  datatype PngResult<+T> = Decoded(image: T) | Failed(reason: PngError)

  function Abs(x: int): nat { if x < 0 then -x else x }

  /** The neighbour nearest to left + above - corner; ties go left, then above. */
  function Paeth(a: Byte, b: Byte, c: Byte): (r: Byte)
    ensures r == a || r == b || r == c
    ensures var p: int := (a as int) + b - c;
            && Abs(p - r) <= Abs(p - a) && Abs(p - r) <= Abs(p - b) && Abs(p - r) <= Abs(p - c)
            && (r != a ==> Abs(p - r) < Abs(p - a)) && (r != a && r != b ==> Abs(p - r) < Abs(p - b))
  {
    var x: int, y: int, z: int := a, b, c;
    var p := x + y - z;
    var pa, pb, pc := Abs(p - x), Abs(p - y), Abs(p - z);
    if pa <= pb && pa <= pc then a else if pb <= pc then b else c
  }

  /** The predictor of each filter type (section 9.2 of the PNG specification): nothing, left,
      above, their average rounded down, or Paeth's choice, here by the distances it compares. */
  predicate Predicts(t: Byte, a: int, b: int, c: int, p: int) {
    || (t == 0 && p == 0) || (t == 1 && p == a) || (t == 2 && p == b) || (t == 3 && 2 * p <= a + b <= 2 * p + 1)
    || (t == 4 &&
        var pa, pb, pc := Abs(b - c), Abs(a - c), Abs(a + b - 2 * c);
        (p == a && pa <= pb && pa <= pc) || (p == b && pb < pa && pb <= pc) || (p == c && pc < pa && pc < pb))
  }

  /** What a filter predicts from the bytes to the left, above, and above left. */
  function Predicted(t: Byte, a: Byte, b: Byte, c: Byte): (p: Byte)
    requires t <= 4
    ensures Predicts(t, a, b, c, p)
  {
    if t == 0 then 0 else if t == 1 then a else if t == 2 then b
    else if t == 3 then (var x: int, y: int := a, b; (x + y) / 2)
    else Paeth(a, b, c)
  }

  /** The byte one pixel to the left, zero at the edge. */
  function LeftOf(row: ByteString, bpp: nat, x: nat): Byte
    requires x < |row| + bpp
  {
    if x >= bpp then row[x - bpp] else 0
  }

  function Minus(x: int, y: int): Byte { (x - y) % 256 }

  function Plus(x: int, y: int): Byte { (x + y) % 256 }

  /** One row filtered against the row above it. */
  function FilterRow(t: Byte, bpp: nat, prev: ByteString, row: ByteString): (r: ByteString)
    requires t <= 4 && bpp >= 1 && |prev| == |row|
    ensures |r| == |row|
  {
    seq(|row|, x requires 0 <= x < |row| =>
      Minus(row[x], Predicted(t, LeftOf(row, bpp, x), prev[x], LeftOf(prev, bpp, x))))
  }

  lemma MinusIs(x: Byte, p: Byte)
    ensures Minus(x, p) == if x >= p then x - p else x - p + 256
    ensures Plus(x, p) == if x + p < 256 then x + p else x + p - 256
  {
  }

  lemma MinusUndone(x: Byte, y: Byte, p: Byte)
    ensures Minus(Plus(x, p), p) == x
    ensures Minus(x, p) == Minus(y, p) ==> x == y
  {
    hide Plus, Minus;
    MinusIs(x, p);
    MinusIs(y, p);
    MinusIs(Plus(x, p), p);
  }

  /** Filtering a row loses nothing. */
  lemma {:induction false} FilterRowInjective(t: Byte, bpp: nat, prev: ByteString, a: ByteString, b: ByteString, n: nat)
    requires t <= 4 && bpp >= 1 && |prev| == |a| == |b| && n <= |a|
    requires FilterRow(t, bpp, prev, a) == FilterRow(t, bpp, prev, b)
    ensures a[..n] == b[..n]
    decreases n
  {
    hide Predicted, Minus;
    if n > 0 {
      FilterRowInjective(t, bpp, prev, a, b, n - 1);
      var x := n - 1;
      assert a[..x] == b[..x];
      assert x >= bpp ==> a[x - bpp] == a[..x][x - bpp] && b[x - bpp] == b[..x][x - bpp];
      assert FilterRow(t, bpp, prev, a)[x] == FilterRow(t, bpp, prev, b)[x];
      MinusUndone(a[x], b[x], Predicted(t, LeftOf(a, bpp, x), prev[x], LeftOf(prev, bpp, x)));
      assert a[..n] == a[..x] + [a[x]] && b[..n] == b[..x] + [b[x]];
    }
  }

  // ---------- whole images ----------

  /** Where row y starts when every row is w bytes. */
  function RowStart(w: nat, y: nat): nat {
    assert w * y >= 0;
    w * y
  }

  lemma NoRows(w: nat)
    ensures RowStart(w, 0) == 0
  {
  }

  lemma RowFits(w: nat, y: nat, h: nat)
    requires y < h
    ensures RowStart(w, y) + w == RowStart(w, y + 1) <= RowStart(w, h) && RowStart(w, 0) == 0
  {
    MulMono(w, y + 1, h);
  }

  /** Row y of an image, and the row above it, zeros above the first. */
  function Row(image: ByteString, w: nat, y: nat): (r: ByteString)
    requires RowStart(w, y + 1) <= |image|
    ensures |r| == w
  {
    RowFits(w, y, y + 1);
    image[RowStart(w, y)..RowStart(w, y + 1)]
  }

  function RowAbove(image: ByteString, w: nat, y: nat): (r: ByteString)
    requires RowStart(w, y) <= |image|
    ensures |r| == w
  {
    if y == 0 then seq(w, _ => 0) else Row(image, w, y - 1)
  }

  predicate ValidTypes(types: ByteString) { forall i :: 0 <= i < |types| ==> types[i] <= 4 }

  /** The first n rows, each filtered with its own type and preceded by it. */
  function FilterImage(types: ByteString, w: nat, bpp: nat, image: ByteString, n: nat): ByteString
    requires ValidTypes(types) && n <= |types| && bpp >= 1 && RowStart(w, n) <= |image|
  {
    if n == 0 then [] else
    RowFits(w, n - 1, n);
    FilterImage(types, w, bpp, image, n - 1)
    + ([types[n - 1]] + FilterRow(types[n - 1], bpp, RowAbove(image, w, n - 1), Row(image, w, n - 1)))
  }

  lemma {:induction false} FilterImageLength(types: ByteString, w: nat, bpp: nat, image: ByteString, n: nat)
    requires ValidTypes(types) && n <= |types| && bpp >= 1 && RowStart(w, n) <= |image|
    ensures |FilterImage(types, w, bpp, image, n)| == RowStart(w + 1, n)
    decreases n
  {
    hide FilterRow, Row, RowAbove, RowStart;
    NoRows(w + 1);
    if n > 0 {
      RowFits(w, n - 1, n);
      FilterImageLength(types, w, bpp, image, n - 1);
      RowFits(w + 1, n - 1, n);
    }
  }

  lemma RowOfPrefix(a: ByteString, b: ByteString, w: nat, y: nat)
    requires RowStart(w, y + 1) <= |a| && RowStart(w, y + 1) <= |b|
    requires a[..RowStart(w, y + 1)] == b[..RowStart(w, y + 1)]
    ensures Row(a, w, y) == Row(b, w, y)
    ensures RowStart(w, y) <= |a| && RowStart(w, y) <= |b| && a[..RowStart(w, y)] == b[..RowStart(w, y)]
  {
    RowFits(w, y, y + 1);
    assert a[..RowStart(w, y + 1)][RowStart(w, y)..] == Row(a, w, y);
    assert b[..RowStart(w, y + 1)][RowStart(w, y)..] == Row(b, w, y);
    assert a[..RowStart(w, y + 1)][..RowStart(w, y)] == a[..RowStart(w, y)];
    assert b[..RowStart(w, y + 1)][..RowStart(w, y)] == b[..RowStart(w, y)];
  }

  lemma AboveOfPrefix(a: ByteString, b: ByteString, w: nat, y: nat)
    requires RowStart(w, y) <= |a| && RowStart(w, y) <= |b| && a[..RowStart(w, y)] == b[..RowStart(w, y)]
    ensures RowAbove(a, w, y) == RowAbove(b, w, y)
  {
    if y > 0 { RowOfPrefix(a, b, w, y - 1); }
  }

  /** Only the rows filtered so far matter. */
  lemma {:induction false} FilterImagePrefix(types: ByteString, w: nat, bpp: nat, a: ByteString, b: ByteString, n: nat)
    requires ValidTypes(types) && n <= |types| && bpp >= 1
    requires RowStart(w, n) <= |a| && RowStart(w, n) <= |b| && a[..RowStart(w, n)] == b[..RowStart(w, n)]
    ensures FilterImage(types, w, bpp, a, n) == FilterImage(types, w, bpp, b, n)
    decreases n
  {
    hide FilterRow, Row, RowAbove, RowStart;
    if n > 0 {
      RowFits(w, n - 1, n);
      RowOfPrefix(a, b, w, n - 1);
      AboveOfPrefix(a, b, w, n - 1);
      FilterImagePrefix(types, w, bpp, a, b, n - 1);
    }
  }

  /** Filtering an image, whatever type each row has, loses nothing. */
  lemma {:induction false} FilterImageInjective(types: ByteString, w: nat, bpp: nat,
                                                a: ByteString, b: ByteString, n: nat)
    requires ValidTypes(types) && n <= |types| && bpp >= 1 && RowStart(w, n) <= |a| && RowStart(w, n) <= |b|
    requires FilterImage(types, w, bpp, a, n) == FilterImage(types, w, bpp, b, n)
    ensures a[..RowStart(w, n)] == b[..RowStart(w, n)]
    decreases n
  {
    hide FilterRow, Row, RowAbove, RowStart;
    if n > 0 {
      RowFits(w, n - 1, n);
      var y := n - 1;
      FilterImageLength(types, w, bpp, a, y);
      FilterImageLength(types, w, bpp, b, y);
      var fa, fb := FilterImage(types, w, bpp, a, y), FilterImage(types, w, bpp, b, y);
      var ra := FilterRow(types[y], bpp, RowAbove(a, w, y), Row(a, w, y));
      var rb := FilterRow(types[y], bpp, RowAbove(b, w, y), Row(b, w, y));
      SameParts(fa, fb, [types[y]] + ra, [types[y]] + rb);
      assert ra == ([types[y]] + ra)[1..] && rb == ([types[y]] + rb)[1..];
      FilterImageInjective(types, w, bpp, a, b, y);
      AboveOfPrefix(a, b, w, y);
      SameRow(types[y], bpp, RowAbove(a, w, y), Row(a, w, y), Row(b, w, y));
      RowJoined(a, w, y);
      RowJoined(b, w, y);
    } else {
      NoRows(w);
    }
  }

  lemma SameRow(t: Byte, bpp: nat, prev: ByteString, a: ByteString, b: ByteString)
    requires t <= 4 && bpp >= 1 && |prev| == |a| == |b| && FilterRow(t, bpp, prev, a) == FilterRow(t, bpp, prev, b)
    ensures a == b
  {
    FilterRowInjective(t, bpp, prev, a, b, |a|);
    assert a[..|a|] == a && b[..|b|] == b;
  }

  lemma RowJoined(image: ByteString, w: nat, y: nat)
    requires RowStart(w, y + 1) <= |image|
    ensures RowStart(w, y) <= |image| && image[..RowStart(w, y + 1)] == image[..RowStart(w, y)] + Row(image, w, y)
  {
    RowFits(w, y, y + 1);
  }

  lemma SameParts(a: ByteString, b: ByteString, c: ByteString, d: ByteString)
    requires |a| == |b| && a + c == b + d
    ensures a == b && c == d
  {
    assert a == (a + c)[..|a|] && b == (b + d)[..|b|];
    assert c == (a + c)[|a|..] && d == (b + d)[|b|..];
  }

  /** The byte of an image in row y and column x, zero to the left of it and above it. */
  function PixelByte(image: ByteString, w: nat, y: int, x: int): int
    requires x < w && (0 <= y ==> RowStart(w, y + 1) <= |image|)
  {
    if y < 0 || x < 0 then 0 else
    RowFits(w, y, y + 1);
    image[RowStart(w, y) + x]
  }

  /** A byte is what filtered data says: the filtered byte plus what its type predicts from the
      bytes to the left, above, and above left. */
  ghost predicate Restores(t: Byte, filtered: int, a: int, b: int, c: int, byte: int) {
    exists p: int :: Predicts(t, a, b, c, p) && byte == (filtered + p) % 256
  }

  /** Where the bytes of filtered data come from (section 9 of the PNG specification): byte x of
      row y is restored from the byte bpp before it, the one above it, and the one bpp before that. */
  lemma {:induction false} FilteredAt(types: ByteString, w: nat, bpp: nat, image: ByteString, n: nat, y: nat, x: nat)
    requires ValidTypes(types) && n <= |types| && bpp >= 1 && RowStart(w, n) <= |image| && y < n && x < w
    ensures RowStart(w, y + 1) <= |image| && (y > 0 ==> RowStart(w, y) <= |image|)
    ensures var raw, at := FilterImage(types, w, bpp, image, n), RowStart(w + 1, y);
            && at + 1 + x < |raw| && raw[at] == types[y]
            && Restores(raw[at], raw[at + 1 + x], PixelByte(image, w, y, x - bpp), PixelByte(image, w, y - 1, x),
                        PixelByte(image, w, y - 1, x - bpp), PixelByte(image, w, y, x))
    decreases n
  {
    hide RowStart, Restores, Row, RowAbove, FilterRow, PixelByte;
    RowFits(w, y, n);
    if y > 0 { RowFits(w, y - 1, n); }
    RowFits(w, n - 1, n);
    FilterImageLength(types, w, bpp, image, n - 1);
    if y < n - 1 {
      FilteredAt(types, w, bpp, image, n - 1, y, x);
    } else {
      var above, row := RowAbove(image, w, y), Row(image, w, y);
      FilterRowAt(types[y], bpp, above, row, x);
      BytesOfRow(image, w, y, x);
      if x >= bpp { BytesOfRow(image, w, y, x - bpp); } else { LeftIsZero(image, w, y, x - bpp); }
    }
  }

  lemma FilterRowAt(t: Byte, bpp: nat, prev: ByteString, row: ByteString, x: nat)
    requires t <= 4 && bpp >= 1 && |prev| == |row| && x < |row|
    ensures var a: int, c: int := if x >= bpp then row[x - bpp] else 0, if x >= bpp then prev[x - bpp] else 0;
            Restores(t, FilterRow(t, bpp, prev, row)[x], a, prev[x], c, row[x])
  {
    hide Predicts, Minus;
    var p: int := Predicted(t, LeftOf(row, bpp, x), prev[x], LeftOf(prev, bpp, x));
    var f: int := FilterRow(t, bpp, prev, row)[x];
    MinusIs(row[x], p);
    assert row[x] == (f + p) % 256;
  }

  lemma BytesOfRow(image: ByteString, w: nat, y: nat, x: nat)
    requires RowStart(w, y + 1) <= |image| && x < w
    ensures RowStart(w, y) <= |image|
    ensures Row(image, w, y)[x] == PixelByte(image, w, y, x)
    ensures RowAbove(image, w, y)[x] == PixelByte(image, w, y - 1, x)
  {
    RowFits(w, y, y + 1);
    if y > 0 { RowFits(w, y - 1, y); }
  }

  lemma LeftIsZero(image: ByteString, w: nat, y: nat, x: int)
    requires RowStart(w, y + 1) <= |image| && x < w
    ensures RowStart(w, y) <= |image|
    ensures x < 0 ==> PixelByte(image, w, y, x) == 0 == PixelByte(image, w, y - 1, x)
  {
    RowFits(w, y, y + 1);
  }

  // ---------- the decoder's loop ----------

  /** One row of filtered bytes back into the image buffer at dst. */
  method UnfilterRow(t: Byte, src: ByteString, bpp: nat, prev: ByteString, out: array<Byte>, dst: nat)
    returns (ok: bool)
    requires bpp >= 1 && |prev| == |src| && dst + |src| <= out.Length
    modifies out
    ensures out[..dst] == old(out[..dst]) && ok == (t <= 4 || src == [])
    ensures t <= 4 ==> FilterRow(t, bpp, prev, out[dst..dst + |src|]) == src
  {
    hide Predicted, Minus, Plus;
    for x := 0 to |src|
      invariant out[..dst] == old(out[..dst]) && (x > 0 ==> t <= 4)
      invariant t <= 4 ==> Unfiltered(t, src, bpp, prev, out[dst..dst + x])
    {
      if t > 4 {
        return false;
      }
      ghost var before := out[dst..dst + x];
      var a := if x >= bpp then out[dst + x - bpp] else 0;
      var b := prev[x];
      var c := if x >= bpp then prev[x - bpp] else 0;
      out[dst + x] := Plus(src[x], Predicted(t, a, b, c));
      assert out[dst..dst + x + 1] == before + [out[dst + x]];
      MinusUndone(src[x], 0, Predicted(t, a, b, c));
    }
    ok := true;
  }

  /** The bytes so far are the ones whose filtering gives the start of src. */
  predicate Unfiltered(t: Byte, src: ByteString, bpp: nat, prev: ByteString, row: ByteString)
    requires t <= 4 && bpp >= 1 && |prev| == |src|
  {
    |row| <= |src| && forall i :: 0 <= i < |row| ==>
      Minus(row[i], Predicted(t, LeftOf(row, bpp, i), prev[i], LeftOf(prev, bpp, i))) == src[i]
  }

  /** The filter type of every row. */
  function Types(raw: ByteString, w: nat, h: nat): (r: ByteString)
    requires RowStart(w + 1, h) <= |raw|
    ensures |r| == h
  {
    seq(h, y requires 0 <= y < h => (RowFits(w + 1, y, h); raw[RowStart(w + 1, y)]))
  }

  /** The image of height h whose filtering is the raw data, or why there is none. */
  method Unfilter(raw: ByteString, w: nat, h: nat, bpp: nat) returns (r: PngResult<ByteString>)
    requires bpp >= 1
    ensures |raw| < RowStart(w + 1, h) ==> r == Failed(Truncated)
    ensures |raw| >= RowStart(w + 1, h) ==>
              if w == 0 || ValidTypes(Types(raw, w, h))
              then r.Decoded? && |r.image| == RowStart(w, h)
              else r == Failed(InvalidFilterType)
    ensures |raw| >= RowStart(w + 1, h) && ValidTypes(Types(raw, w, h))
            ==> FilterImage(Types(raw, w, h), w, bpp, r.image, h) == raw[..RowStart(w + 1, h)]
  {
    hide FilterRow, RowAbove, Row, FilterImage, RowStart;
    var stride := w + 1;
    if |raw| < RowStart(stride, h) {
      return Failed(Truncated);
    }
    ghost var types := Types(raw, w, h);
    var out := new Byte[RowStart(w, h)](_ => 0);
    var prev: ByteString := seq(w, _ => 0);
    NoRows(w);
    NoRows(stride);
    FilterNothing(types, w, bpp, out[..]);
    for y := 0 to h
      invariant RowStart(w, y) <= out.Length == RowStart(w, h) && RowStart(stride, y) <= |raw|
      invariant prev == RowAbove(out[..], w, y) && (w > 0 ==> ValidTypes(types[..y]))
      invariant ValidTypes(types[..y]) ==> FilterImage(types[..y], w, bpp, out[..], y) == raw[..RowStart(stride, y)]
    {
      RowFits(stride, y, h);
      RowFits(w, y, h);
      var t := raw[RowStart(stride, y)];
      var src := raw[RowStart(stride, y) + 1..RowStart(stride, y + 1)];
      ghost var before := out[..];
      var ok := UnfilterRow(t, src, bpp, prev, out, RowStart(w, y));
      assert types[y] == t && types[..y + 1] == types[..y] + [t];
      if !ok {
        return Failed(InvalidFilterType);
      }
      RowIs(out[..], w, y);
      assert out[..][RowStart(w, y)..RowStart(w, y + 1)] == out[RowStart(w, y)..RowStart(w, y) + |src|];
      assert types[..y + 1][..y] == types[..y] && before[..RowStart(w, y)] == out[..][..RowStart(w, y)];
      if ValidTypes(types[..y + 1]) {
        NextRow(raw, types[..y + 1], w, bpp, before, out[..], y);
      }
      prev := out[RowStart(w, y)..RowStart(w, y + 1)];
    }
    assert types[..h] == types;
    r := Decoded(out[..]);
  }

  lemma FilterNothing(types: ByteString, w: nat, bpp: nat, image: ByteString)
    requires bpp >= 1
    ensures ValidTypes(types[..0]) && RowStart(w, 0) <= |image| && FilterImage(types[..0], w, bpp, image, 0) == []
    ensures RowAbove(image, w, 0) == seq(w, _ => 0)
  {
  }

  lemma RowIs(image: ByteString, w: nat, y: nat)
    requires RowStart(w, y + 1) <= |image|
    ensures RowStart(w, y) <= RowStart(w, y + 1)
    ensures RowAbove(image, w, y + 1) == image[RowStart(w, y)..RowStart(w, y + 1)] == Row(image, w, y)
  {
    RowFits(w, y, y + 1);
  }

  lemma NextRow(raw: ByteString, types: ByteString, w: nat, bpp: nat, before: ByteString, after: ByteString, y: nat)
    requires |types| == y + 1 && ValidTypes(types) && bpp >= 1 && RowStart(w + 1, y + 1) <= |raw|
    requires RowStart(w, y + 1) <= |before| == |after| && RowStart(w, y) <= RowStart(w, y + 1)
    requires RowStart(w + 1, y) + w + 1 == RowStart(w + 1, y + 1)
    requires before[..RowStart(w, y)] == after[..RowStart(w, y)] && types[y] == raw[RowStart(w + 1, y)]
    requires ValidTypes(types[..y]) && FilterImage(types[..y], w, bpp, before, y) == raw[..RowStart(w + 1, y)]
    requires FilterRow(types[y], bpp, RowAbove(before, w, y), Row(after, w, y))
             == raw[RowStart(w + 1, y) + 1..RowStart(w + 1, y + 1)]
    ensures FilterImage(types, w, bpp, after, y + 1) == raw[..RowStart(w + 1, y + 1)]
  {
    hide FilterRow, RowAbove, Row, RowStart;
    FilterImagePrefix(types[..y], w, bpp, before, after, y);
    TypesPrefix(types, w, bpp, after, y);
    AboveOfPrefix(before, after, w, y);
    var s := RowStart(w + 1, y);
    assert raw[..s] + ([raw[s]] + raw[s + 1..s + w + 1]) == raw[..s + w + 1];
  }

  lemma {:induction false} TypesPrefix(types: ByteString, w: nat, bpp: nat, image: ByteString, n: nat)
    requires ValidTypes(types) && n <= |types| && bpp >= 1 && RowStart(w, n) <= |image|
    ensures FilterImage(types[..n], w, bpp, image, n) == FilterImage(types, w, bpp, image, n)
  {
    TypesAgree(types[..n], types, w, bpp, image, n);
  }

  lemma {:induction false} TypesAgree(a: ByteString, b: ByteString, w: nat, bpp: nat, image: ByteString, n: nat)
    requires ValidTypes(a) && ValidTypes(b) && n <= |a| && n <= |b| && bpp >= 1 && RowStart(w, n) <= |image|
    requires forall i :: 0 <= i < n ==> a[i] == b[i]
    ensures FilterImage(a, w, bpp, image, n) == FilterImage(b, w, bpp, image, n)
    decreases n
  {
    hide FilterRow, RowAbove, Row, RowStart;
    if n > 0 {
      RowFits(w, n - 1, n);
      TypesAgree(a, b, w, bpp, image, n - 1);
    }
  }

  // ---------- undoing the filters ----------

  /** The filter types can be read back from the filtered data. */
  lemma {:induction false} TypeOfRow(types: ByteString, w: nat, bpp: nat, image: ByteString, n: nat, y: nat)
    requires ValidTypes(types) && n <= |types| && bpp >= 1 && RowStart(w, n) <= |image| && y < n
    ensures var raw := FilterImage(types, w, bpp, image, n);
            RowStart(w + 1, y) < |raw| && raw[RowStart(w + 1, y)] == types[y]
    decreases n
  {
    hide FilterRow, RowAbove, Row, RowStart;
    RowFits(w, n - 1, n);
    FilterImageLength(types, w, bpp, image, n - 1);
    if y < n - 1 { TypeOfRow(types, w, bpp, image, n - 1, y); }
  }

  /** Whatever image of this height filters to the raw data is the one that was filtered. */
  lemma FilteredFrom(types: ByteString, w: nat, bpp: nat, image: ByteString, other: ByteString, h: nat)
    requires ValidTypes(types) && |types| == h && bpp >= 1 && |image| == RowStart(w, h) == |other|
    ensures var raw := FilterImage(types, w, bpp, image, h);
            && |raw| == RowStart(w + 1, h) && Types(raw, w, h) == types
            && (FilterImage(types, w, bpp, other, h) == raw ==> other == image)
  {
    hide FilterImage, RowStart;
    FilterImageLength(types, w, bpp, image, h);
    forall y: nat | y < h ensures Types(FilterImage(types, w, bpp, image, h), w, h)[y] == types[y] {
      TypeOfRow(types, w, bpp, image, h, y);
    }
    if FilterImage(types, w, bpp, other, h) == FilterImage(types, w, bpp, image, h) {
      FilterImageInjective(types, w, bpp, other, image, h);
      assert other[..RowStart(w, h)] == other && image[..RowStart(w, h)] == image;
    }
  }

  /** Unfiltering gives back every image, for every choice of filter types. */
  method UnfilterUndoesFilter(types: ByteString, w: nat, bpp: nat, image: ByteString) returns (r: PngResult<ByteString>)
    requires ValidTypes(types) && bpp >= 1 && |image| == RowStart(w, |types|)
    ensures r == Decoded(image)
  {
    hide FilterImage, RowStart;
    var raw := FilterImage(types, w, bpp, image, |types|);
    FilteredFrom(types, w, bpp, image, image, |types|);
    r := Unfilter(raw, w, |types|, bpp);
    assert raw[..RowStart(w + 1, |types|)] == raw;
    FilteredFrom(types, w, bpp, image, r.image, |types|);
  }

  /** Two images of one size that filter to the same data, each with the types found in it, are the same. */
  lemma SameImage(types: ByteString, w: nat, bpp: nat, image: ByteString, other: ByteString, raw: ByteString, h: nat)
    requires ValidTypes(types) && |types| == h && bpp >= 1 && |image| == RowStart(w, h) == |other|
    requires raw == FilterImage(types, w, bpp, image, h) && RowStart(w + 1, h) <= |raw| && ValidTypes(Types(raw, w, h))
    requires FilterImage(Types(raw, w, h), w, bpp, other, h) == raw[..RowStart(w + 1, h)]
    ensures other == image
  {
    hide RowStart, FilterImage, Types;
    FilteredFrom(types, w, bpp, image, other, h);
    assert raw[..RowStart(w + 1, h)] == raw;
  }
}
