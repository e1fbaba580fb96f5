/** Glyphs of a PGF font: a header of bit fields and run-length coded pixels. */
module Glyph {
  import opened Words
  import opened BitReader

  datatype Option<T> = None | Some(value: T)

  // ----- the header -----

  const BMP_H_ROWS: nat := 0x01
  const BMP_OVERLAY: nat := 0x03
  const METRIC_FLAG1: nat := 0x04
  const METRIC_FLAG2: nat := 0x08
  const METRIC_FLAG3: nat := 0x10
  const CHARGLYPH: nat := 0x20

  predicate HasFlag(flags: nat, flag: nat) {
    And(flags, flag) == flag
  }

  /** `left` and `top` are the seven bits as they are stored. */
  datatype Header = Header(width: nat, height: nat, left: nat, top: nat, flags: nat, advanceIndex: nat,
                           dataByteOffset: nat)

  /** Where the header of the glyph or of its shadow begins. */
  function HeaderStart(start: nat, shadow: bool, shadowOffset: nat): nat {
    if shadow then start + 8 * shadowOffset else start
  }

  /** Metrics that have no flag are stored in the header. */
  function Metrics(flags: nat): nat {
    (if HasFlag(flags, METRIC_FLAG1) then 0 else 56) + (if HasFlag(flags, METRIC_FLAG2) then 0 else 56)
    + (if HasFlag(flags, METRIC_FLAG3) then 0 else 56)
  }

  /** Where the pixels begin when the header begins at `h`. */
  function PixelStart(h: nat, flags: nat): nat {
    h + 48 + if HasFlag(flags, CHARGLYPH) then 16 + 24 + Metrics(flags) + 8 else 0
  }

  ghost predicate IsHeader(data: seq<Byte>, h: nat, g: Header) {
    && Reads(data, h + 14, 7, g.width) && Reads(data, h + 21, 7, g.height)
    && Reads(data, h + 28, 7, g.left) && Reads(data, h + 35, 7, g.top)
    && Reads(data, h + 42, 6, g.flags)
    && (if HasFlag(g.flags, CHARGLYPH) then Reads(data, PixelStart(h, g.flags) - 8, 8, g.advanceIndex)
        else g.advanceIndex == 0)
    && g.dataByteOffset * 8 == PixelStart(h, g.flags)
  }

  /** The header cannot be read. */
  ghost predicate CutOff(data: seq<Byte>, h: nat, flags: nat) {
    h + 48 > Bits(data) || (Reads(data, h + 42, 6, flags) && PixelStart(h, flags) > Bits(data))
  }

  /** Pixels begin on a byte, whatever the flags say. */
  lemma {:induction false} PixelsAligned(start: nat, shadow: bool, shadowOffset: nat, flags: nat)
    requires start % 8 == 0
    ensures PixelStart(HeaderStart(start, shadow, shadowOffset), flags) % 8 == 0
  {
    var more := if HasFlag(flags, CHARGLYPH) then 48 + Metrics(flags) else 0;
    WholeBytes(HeaderStart(start, shadow, shadowOffset) + 48, more);
  }

  lemma {:induction false} WholeBytes(a: nat, b: nat)
    requires a % 8 == 0 && b % 8 == 0
    ensures (a + b) % 8 == 0
  {}

  /** Skip over the metrics that are stored. */
  method SkipMetrics(br: Reader, flags: nat)
    requires br.BitOffset == 0
    modifies br
    ensures br.BitOffset == 0 && br.Position() == old(br.Position()) + Metrics(flags)
  {
    if !HasFlag(flags, METRIC_FLAG1) { br.SkipBits(56); }
    if !HasFlag(flags, METRIC_FLAG2) { br.SkipBits(56); }
    if !HasFlag(flags, METRIC_FLAG3) { br.SkipBits(56); }
  }

  /** The part of the header that glyphs of characters have. */
  method ReadCharPart(br: Reader, flags: nat) returns (ok: bool, advanceIndex: nat)
    requires br.BitOffset == 0
    modifies br
    ensures
      var end := old(br.Position()) + 16 + 24 + Metrics(flags) + 8;
      (ok <==> end <= Bits(br.Data)) &&
      (ok ==> br.BitOffset == 0 && br.Position() == end && Reads(br.Data, end - 8, 8, advanceIndex))
  {
    br.SkipBits(7);
    var shadowId;
    ok, shadowId := br.ReadBits(9);
    if !ok { return false, 0; }
    br.SkipBits(24);
    SkipMetrics(br, flags);
    ok, advanceIndex := br.ReadBits(8);
  }

  /** The fields from the width to the flags; the cursor is within a byte throughout. */
  method ReadFixedPart(br: Reader)
    returns (ok: bool, width: nat, height: nat, left: nat, top: nat, flags: nat)
    requires br.BitOffset == 6
    modifies br
    ensures
      var p := old(br.Position());
      (ok <==> p + 34 <= Bits(br.Data)) &&
      (ok ==>
        && br.BitOffset == 0 && br.Position() == p + 34
        && Reads(br.Data, p, 7, width) && Reads(br.Data, p + 7, 7, height)
        && Reads(br.Data, p + 14, 7, left) && Reads(br.Data, p + 21, 7, top)
        && Reads(br.Data, p + 28, 6, flags))
  {
    width, height, left, top, flags := 0, 0, 0, 0, 0;
    ok, width := br.ReadBits(7);
    if !ok { return; }
    ok, height := br.ReadBits(7);
    if !ok { return; }
    ok, left := br.ReadBits(7);
    if !ok { return; }
    ok, top := br.ReadBits(7);
    if !ok { return; }
    ok, flags := br.ReadBits(6);
  }

  /** Go to the fields after the first one, in the header of the glyph or of its shadow. */
  method SeekHeader(br: Reader, start: nat, shadow: bool) returns (ok: bool, shadowOffset: nat)
    requires start % 8 == 0
    modifies br
    ensures ok <==> start + 14 <= Bits(br.Data)
    ensures ok ==> Reads(br.Data, start, 14, shadowOffset)
    ensures ok ==> br.BitOffset == 6 && br.Position() == HeaderStart(start, shadow, shadowOffset) + 14
  {
    br.SetPosition(start);
    ok, shadowOffset := br.ReadBits(14);
    if ok && shadow {
      br.SetPosition(start + shadowOffset * 8);
      br.SkipBits(14);
    }
  }

  /** The fields of the header at `h`, when the cursor is behind the first one. */
  method ReadFields(br: Reader, ghost h: nat) returns (ok: bool, g: Header, ghost flags: nat)
    requires h % 8 == 0 && br.BitOffset == 6 && br.Position() == h + 14
    modifies br
    ensures
      if ok then IsHeader(br.Data, h, g) && br.Position() == PixelStart(h, g.flags) && br.BitOffset == 0
      else CutOff(br.Data, h, flags)
  {
    g, flags := Header(0, 0, 0, 0, 0, 0, 0), 0;
    var width, height, left, top, fl;
    ok, width, height, left, top, fl := ReadFixedPart(br);
    flags := fl;
    if !ok { return; }
    var advanceIndex := 0;
    if HasFlag(fl, CHARGLYPH) {
      ok, advanceIndex := ReadCharPart(br, fl);
      if !ok { return; }
    }
    PixelsAligned(h, false, 0, fl);
    g := Header(width, height, left, top, fl, advanceIndex, br.Position() / 8);
  }

  /** The header of the glyph that begins at `start`, or of its shadow; after it the cursor is
    at the pixels. */
  method ReadHeader(br: Reader, start: nat, shadow: bool)
    returns (ok: bool, g: Header, ghost shadowOffset: nat, ghost flags: nat)
    requires start % 8 == 0
    modifies br
    ensures start + 14 <= Bits(br.Data) ==> Reads(br.Data, start, 14, shadowOffset)
    ensures
      var h := HeaderStart(start, shadow, shadowOffset);
      if ok then IsHeader(br.Data, h, g) && br.Position() == PixelStart(h, g.flags) && br.BitOffset == 0
      else start + 14 > Bits(br.Data) || CutOff(br.Data, h, flags)
  {
    g, flags := Header(0, 0, 0, 0, 0, 0, 0), 0;
    var offset;
    ok, offset := SeekHeader(br, start, shadow);
    shadowOffset := offset;
    if !ok { return; }
    ok, g, flags := ReadFields(br, HeaderStart(start, shadow, shadowOffset));
  }

  // ----- the pixels -----

  /** `ns` are the nibbles from `p` to the end of the data. */
  ghost predicate Nibbles(data: seq<Byte>, p: nat, ns: seq<nat>) {
    && (if p <= Bits(data) then |ns| == (Bits(data) - p) / 4 else ns == [])
    && forall k :: 0 <= k < |ns| ==> NibbleAt(data, p, k, ns[k])
  }

  ghost predicate NibbleAt(data: seq<Byte>, p: nat, k: nat, v: nat) {
    Reads(data, p + 4 * k, 4, v)
  }

  predicate AllNibbles(ns: seq<nat>) {
    forall k :: 0 <= k < |ns| ==> ns[k] < 16
  }

  /** There are such nibbles. */
  lemma {:induction false} TheNibbles(data: seq<Byte>, p: nat) returns (ns: seq<nat>)
    ensures Nibbles(data, p, ns) && AllNibbles(ns)
  {
    Pow2Values();
    var n := if p <= Bits(data) then (Bits(data) - p) / 4 else 0;
    ns := [];
    while |ns| < n
      invariant |ns| <= n && AllNibbles(ns)
      invariant forall k :: 0 <= k < |ns| ==> NibbleAt(data, p, k, ns[k])
      decreases n - |ns|
    {
      ValueReads(data, p + 4 * |ns|, 4);
      ns := ns + [Value(data, p + 4 * |ns|, 4)];
    }
  }

  function Repeat(v: nat, n: nat): (s: seq<nat>)
    ensures |s| == n
  {
    if n == 0 then [] else Repeat(v, n - 1) + [v]
  }

  function Min(a: nat, b: nat): nat {
    if a < b then a else b
  }

  function Then(s: seq<nat>, rest: Option<seq<nat>>): Option<seq<nat>> {
    if rest.Some? then Some(s + rest.value) else None
  }

  /** The pixels that the first code stands for, cut off after `left` pixels, and the number of
    nibbles they take: codes below 8 repeat a value, the others announce values. */
  function Code(ns: seq<nat>, left: nat): (r: Option<(seq<nat>, nat)>)
    requires AllNibbles(ns)
    ensures r.Some? ==> r.value.1 <= |ns| && (left > 0 ==> 0 < |r.value.0| <= left)
  {
    if ns == [] then None
    else if ns[0] < 8 then
      if |ns| < 2 then None else Some((Repeat(ns[1], Min(ns[0] + 1, left)), 2))
    else
      var n := Min(16 - ns[0], left);
      if 1 + n > |ns| then None else Some((ns[1..1 + n], 1 + n))
  }

  /** The `left` pixels that the codes stand for, if there are that many. */
  function Pixels(ns: seq<nat>, left: nat): (r: Option<seq<nat>>)
    requires AllNibbles(ns)
    ensures r.Some? ==> |r.value| == left
    decreases left
  {
    if left == 0 then Some([])
    else
      match Code(ns, left)
      case None => None
      case Some((s, n)) => Then(s, Pixels(ns[n..], left - |s|))
  }

  // ----- an encoder -----

  /** A run of up to eight equal pixels, or up to eight pixels with values of their own. */
  datatype Piece = Run(count: nat, value: nat) | Values(px: seq<nat>)

  predicate IsPiece(p: Piece) {
    match p
    case Run(count, value) => 1 <= count <= 8 && value < 16
    case Values(px) => 1 <= |px| <= 8 && AllNibbles(px)
  }

  predicate ArePieces(ps: seq<Piece>) {
    forall i :: 0 <= i < |ps| ==> IsPiece(ps[i])
  }

  function PixelsOf(p: Piece): seq<nat> {
    match p
    case Run(count, value) => seq(count, _ => value)
    case Values(px) => px
  }

  /** The number of pixels less one and their value, or 16 less their number and the values. */
  function CodeOf(p: Piece): (ns: seq<nat>)
    requires IsPiece(p)
    ensures AllNibbles(ns)
  {
    match p
    case Run(count, value) => [count - 1, value]
    case Values(px) => [16 - |px|] + px
  }

  function Expand(ps: seq<Piece>): seq<nat> {
    if ps == [] then [] else PixelsOf(ps[0]) + Expand(ps[1..])
  }

  function Encode(ps: seq<Piece>): (ns: seq<nat>)
    requires ArePieces(ps)
    ensures AllNibbles(ns)
  {
    if ps == [] then [] else CodeOf(ps[0]) + Encode(ps[1..])
  }

  lemma {:induction false} RepeatIsSeq(v: nat, n: nat)
    ensures Repeat(v, n) == seq(n, _ => v)
  {
    if n > 0 { RepeatIsSeq(v, n - 1); }
  }

  /** The first piece is read off, or as much of it as is needed. */
  lemma {:induction false} CodeReads(p: Piece, rest: seq<nat>, left: nat)
    requires IsPiece(p) && AllNibbles(rest) && left > 0
    ensures AllNibbles(CodeOf(p) + rest)
    ensures
      var n := Min(|PixelsOf(p)|, left);
      var r := Code(CodeOf(p) + rest, left);
      && r.Some? && r.value.0 == PixelsOf(p)[..n]
      && (n == |PixelsOf(p)| ==> (CodeOf(p) + rest)[r.value.1..] == rest)
  {
    var ns, n := CodeOf(p) + rest, Min(|PixelsOf(p)|, left);
    match p
    case Run(count, value) => RepeatIsSeq(value, n);
    case Values(px) => assert ns[1..1 + n] == px[..n];
  }

  /** Decoding what was encoded gives the pixels back, also when fewer are asked for than were
    encoded, and whatever follows. */
  lemma {:induction false} DecodesEncoded(ps: seq<Piece>, rest: seq<nat>, left: nat)
    requires ArePieces(ps) && AllNibbles(rest) && left <= |Expand(ps)|
    ensures AllNibbles(Encode(ps) + rest)
    ensures Pixels(Encode(ps) + rest, left) == Some(Expand(ps)[..left])
    decreases |ps|
  {
    if left > 0 {
      EncodeFirst(ps, rest);
      if |PixelsOf(ps[0])| <= left {
        DecodesEncoded(ps[1..], rest, left - |PixelsOf(ps[0])|);
        WholePiece(ps[0], Encode(ps[1..]) + rest, Expand(ps[1..]), left);
      } else {
        CutPiece(ps[0], Encode(ps[1..]) + rest, Expand(ps[1..]), left);
      }
    } else {
      NoPixels(Encode(ps) + rest);
    }
  }

  lemma {:induction false} EncodeFirst(ps: seq<Piece>, rest: seq<nat>)
    requires ps != [] && ArePieces(ps)
    ensures Encode(ps) + rest == CodeOf(ps[0]) + (Encode(ps[1..]) + rest)
  {}

  lemma {:induction false} WholePiece(p: Piece, ns: seq<nat>, px: seq<nat>, left: nat)
    requires IsPiece(p) && AllNibbles(ns) && |PixelsOf(p)| <= left <= |PixelsOf(p)| + |px|
    requires Pixels(ns, left - |PixelsOf(p)|) == Some(px[..left - |PixelsOf(p)|])
    ensures AllNibbles(CodeOf(p) + ns)
    ensures Pixels(CodeOf(p) + ns, left) == Some((PixelsOf(p) + px)[..left])
  {
    CodeReads(p, ns, left);
    FirstPixels(PixelsOf(p), px, left);
    PixelsStep(CodeOf(p) + ns, left, PixelsOf(p), px[..left - |PixelsOf(p)|]);
  }

  lemma {:induction false} CutPiece(p: Piece, ns: seq<nat>, px: seq<nat>, left: nat)
    requires IsPiece(p) && AllNibbles(ns) && 0 < left < |PixelsOf(p)|
    ensures AllNibbles(CodeOf(p) + ns)
    ensures Pixels(CodeOf(p) + ns, left) == Some((PixelsOf(p) + px)[..left])
  {
    CodeReads(p, ns, left);
    PixelsStep(CodeOf(p) + ns, left, PixelsOf(p)[..left], []);
    LastPixels(PixelsOf(p), px, left);
  }

  lemma {:induction false} NoPixels(ns: seq<nat>)
    requires AllNibbles(ns)
    ensures Pixels(ns, 0) == Some([])
  {}

  lemma {:induction false} PixelsStep(ns: seq<nat>, left: nat, s: seq<nat>, px: seq<nat>)
    requires AllNibbles(ns) && left > 0 && Code(ns, left).Some? && Code(ns, left).value.0 == s && |s| <= left
    requires (|s| == left && px == []) || Pixels(ns[Code(ns, left).value.1..], left - |s|) == Some(px)
    ensures Pixels(ns, left) == Some(s + px)
  {
    if |s| == left { NoPixels(ns[Code(ns, left).value.1..]); }
  }

  lemma {:induction false} LastPixels(a: seq<nat>, b: seq<nat>, left: nat)
    requires left < |a|
    ensures (a + b)[..left] == a[..left] + []
  {}

  lemma {:induction false} FirstPixels(a: seq<nat>, b: seq<nat>, left: nat)
    requires |a| <= left <= |a| + |b|
    ensures (a + b)[..left] == a[..|a|] + b[..left - |a|]
  {}

  /** The pixel that is `i`-th in the order of the rows or of the columns. */
  function Cell(width: nat, height: nat, rows: bool, i: nat): nat
    requires i < width * height
  {
    Inhabited(width, height, i);
    var x := if rows then i % width else i / height;
    var y := if rows then i / width else i % height;
    x + y * width
  }

  /** The inverse: the place in that order of the pixel at `c`. */
  function Order(width: nat, height: nat, rows: bool, c: nat): nat
    requires c < width * height
  {
    Inhabited(width, height, c);
    if rows then c else c / width + c % width * height
  }

  /** Rows go from left to right, one below the other; columns from top to bottom, side by side. */
  lemma {:induction false} OrderOfPixel(width: nat, height: nat, rows: bool, x: nat, y: nat)
    requires x < width && y < height
    ensures x + y * width < width * height
    ensures Order(width, height, rows, x + y * width) == if rows then y * width + x else x * height + y
  {
    MulMonotone(width, y + 1, height);
    MulDistributes(width, y, 1);
    DivUnique(x + y * width, width, y, x);
  }

  lemma {:induction false} Inhabited(width: nat, height: nat, i: nat)
    requires i < width * height
    ensures width > 0 && height > 0
  {}

  lemma {:induction false} InRows(width: nat, i: nat)
    requires width > 0
    ensures i % width + i / width * width == i
  {
    assert i == width * (i / width) + i % width;
  }

  lemma {:induction false} Transposed(a: nat, b: nat, i: nat)
    requires i < a * b && a > 0 && b > 0
    ensures
      var c := i / b + i % b * a;
      c < a * b && c % a == i / b && c / a == i % b
  {
    var q, r := i / b, i % b;
    assert i == b * q + r;
    if q >= a { MulMonotone(b, a, q); assert false; }
    MulMonotone(a, r, b - 1);
    assert a * (b - 1) == a * b - a by { MulDistributes(a, b, -1); }
    DivUnique(q + r * a, a, r, q);
  }

  lemma {:induction false} TransposedTwice(a: nat, b: nat, i: nat)
    requires i < a * b && a > 0 && b > 0
    ensures
      var c := i / b + i % b * a;
      c < a * b && c / a + c % a * b == i
  {
    Transposed(a, b, i);
    InRows(b, i);
  }

  /** Every pixel is written once: cell and order are inverse to each other. */
  lemma {:induction false} CellsAreOrdered(width: nat, height: nat, rows: bool, i: nat)
    requires i < width * height
    ensures Cell(width, height, rows, i) < width * height
    ensures Order(width, height, rows, Cell(width, height, rows, i)) == i
    ensures Order(width, height, rows, i) < width * height
    ensures Cell(width, height, rows, Order(width, height, rows, i)) == i
  {
    Inhabited(width, height, i);
    if rows { CellInRows(width, height, i); } else { CellInColumns(width, height, i); }
  }

  lemma {:induction false} CellInRows(width: nat, height: nat, i: nat)
    requires i < width * height
    ensures Cell(width, height, true, i) == i == Order(width, height, true, i)
  {
    Inhabited(width, height, i);
    InRows(width, i);
  }

  lemma {:induction false} CellInColumns(width: nat, height: nat, i: nat)
    requires i < width * height
    ensures Cell(width, height, false, i) < width * height
    ensures Order(width, height, false, Cell(width, height, false, i)) == i
    ensures Order(width, height, false, i) < width * height
    ensures Cell(width, height, false, Order(width, height, false, i)) == i
  {
    Inhabited(width, height, i);
    TransposedTwice(width, height, i);
    assert height * width == width * height;
    TransposedTwice(height, width, i);
  }

  /** A byte with the value in both halves. */
  function Shade(v: nat): nat {
    Or(v, Pow2(4) * v)
  }

  lemma {:induction false} ShadeIsByte(v: nat)
    requires v < 16
    ensures Shade(v) == 17 * v && Shade(v) < 256
  {
    Pow2Values();
    OrAbove(v, v, 4);
  }

  // ----- the picture -----

  predicate Within(order: seq<nat>) {
    forall i :: 0 <= i < |order| ==> order[i] < |order|
  }

  /** The picture after the pixels `px` have been written one after the other, each to the cell
    that `order` has for it. */
  ghost function Painted(cells: seq<nat>, order: seq<nat>, px: seq<nat>): (r: seq<nat>)
    requires |px| <= |order| == |cells| && Within(order)
    ensures |r| == |cells|
    decreases |px|
  {
    if px == [] then cells
    else
      var n := |px| - 1;
      Painted(cells, order, px[..n])[order[n] := Shade(px[n])]
  }

  ghost predicate CellAt(order: seq<nat>, width: nat, height: nat, rows: bool, i: nat) {
    |order| == width * height && (i < |order| ==> order[i] == Cell(width, height, rows, i))
  }

  /** `order` has the cells of the rows, or of the columns. */
  ghost predicate Follows(order: seq<nat>, width: nat, height: nat, rows: bool) {
    Within(order) && forall i :: 0 <= i ==> CellAt(order, width, height, rows, i)
  }

  lemma {:induction false} TheOrder(width: nat, height: nat, rows: bool) returns (order: seq<nat>)
    ensures |order| == width * height && Follows(order, width, height, rows)
  {
    order := seq(width * height, i requires 0 <= i < width * height => Cell(width, height, rows, i));
    forall i | 0 <= i < |order|
      ensures order[i] < |order|
    {
      CellsAreOrdered(width, height, rows, i);
    }
  }

  lemma {:induction false} PaintedCell(cells: seq<nat>, width: nat, height: nat, rows: bool, order: seq<nat>,
                                       px: seq<nat>, k: nat)
    requires Follows(order, width, height, rows) && k < |px| <= |order| == |cells|
    ensures Painted(cells, order, px)[order[k]] == Shade(px[k])
    decreases |px|
  {
    var n := |px| - 1;
    if k < n {
      PaintedCell(cells, width, height, rows, order, px[..n], k);
      assert CellAt(order, width, height, rows, k) && CellAt(order, width, height, rows, n);
      CellsAreOrdered(width, height, rows, k);
      CellsAreOrdered(width, height, rows, n);
    }
  }

  /** Writing all the pixels writes every cell, each with the pixel that belongs there. */
  lemma {:induction false} PictureIsTransposed(cells: seq<nat>, width: nat, height: nat, rows: bool,
                                               order: seq<nat>, px: seq<nat>, c: nat)
    requires Follows(order, width, height, rows) && |px| == |order| == |cells| && c < |cells|
    ensures |cells| == width * height && Order(width, height, rows, c) < |px|
    ensures Painted(cells, order, px)[c] == Shade(px[Order(width, height, rows, c)])
  {
    assert CellAt(order, width, height, rows, c);
    var k := Order(width, height, rows, c);
    CellsAreOrdered(width, height, rows, c);
    PaintedCell(cells, width, height, rows, order, px, k);
    assert CellAt(order, width, height, rows, k);
  }

  method DrawPixel(cells: array<nat>, width: nat, height: nat, rows: bool, pixelIndex: nat, v: nat,
                   ghost order: seq<nat>, ghost blank: seq<nat>, ghost px: seq<nat>)
    requires Follows(order, width, height, rows) && pixelIndex == |px| < |order| == |blank|
    requires cells[..] == Painted(blank, order, px)
    modifies cells
    ensures cells[..] == Painted(blank, order, px + [v])
  {
    assert CellAt(order, width, height, rows, pixelIndex);
    cells[Cell(width, height, rows, pixelIndex)] := Shade(v);
    assert (px + [v])[..|px|] == px;
  }

  /** Draw pixels of one value. */
  method DrawRun(cells: array<nat>, width: nat, height: nat, rows: bool, first: nat, v: nat, count: nat,
                 ghost order: seq<nat>, ghost blank: seq<nat>, ghost px: seq<nat>)
    returns (pixelIndex: nat)
    requires Follows(order, width, height, rows) && first == |px| <= |order| == |blank|
    requires cells[..] == Painted(blank, order, px)
    modifies cells
    ensures pixelIndex == |px| + Min(count, |order| - |px|)
    ensures cells[..] == Painted(blank, order, px + Repeat(v, Min(count, |order| - |px|)))
  {
    pixelIndex := first;
    var n := 0;
    ghost var drawn := px;
    assert px + Repeat(v, 0) == px;
    while n < count && pixelIndex < cells.Length
      invariant 0 <= n <= count && pixelIndex == |px| + n <= |order| == cells.Length
      invariant drawn == px + Repeat(v, n) && cells[..] == Painted(blank, order, drawn)
      decreases count - n
    {
      DrawPixel(cells, width, height, rows, pixelIndex, v, order, blank, drawn);
      RepeatNext(px, v, n);
      drawn := drawn + [v];
      n := n + 1;
      pixelIndex := pixelIndex + 1;
    }
  }

  lemma {:induction false} RepeatNext(px: seq<nat>, v: nat, n: nat)
    ensures px + Repeat(v, n) + [v] == px + Repeat(v, n + 1)
  {}

  /** The reader is where the nibbles `ns` come next. */
  ghost predicate At(br: Reader, ns: seq<nat>)
    reads br
  {
    br.BitOffset < 8 && AllNibbles(ns) && Nibbles(br.Data, br.Position(), ns)
  }

  lemma {:induction false} NextNibble(data: seq<Byte>, p: nat, ns: seq<nat>, v: nat)
    requires Nibbles(data, p, ns) && AllNibbles(ns) && p + 4 <= Bits(data) && Reads(data, p, 4, v)
    ensures ns != [] && v == ns[0] && AllNibbles(ns[1..]) && Nibbles(data, p + 4, ns[1..])
  {
    assert NibbleAt(data, p, 0, ns[0]);
    ReadsIsUnique(data, p, 4, v, ns[0]);
    forall k | 0 <= k < |ns| - 1
      ensures NibbleAt(data, p + 4, k, ns[1..][k])
    {
      assert NibbleAt(data, p, k + 1, ns[k + 1]);
      assert p + 4 + 4 * k == p + 4 * (k + 1);
    }
  }

  method ReadNibble(br: Reader, ghost ns: seq<nat>) returns (ok: bool, v: nat)
    requires At(br, ns)
    modifies br
    ensures ok <==> ns != []
    ensures ok ==> v == ns[0] && At(br, ns[1..])
  {
    ghost var p := br.Position();
    ok, v := br.ReadBits(4);
    if ok { NextNibble(br.Data, p, ns, v); }
  }

  /** Read and draw one pixel with a value of its own. */
  method DrawLiteral(br: Reader, cells: array<nat>, width: nat, height: nat, rows: bool, pixelIndex: nat,
                     ghost ns: seq<nat>, ghost order: seq<nat>, ghost blank: seq<nat>, ghost px: seq<nat>)
    returns (ok: bool)
    requires Follows(order, width, height, rows) && pixelIndex == |px| < |order| == |blank| && At(br, ns)
    requires cells[..] == Painted(blank, order, px)
    modifies cells, br
    ensures ok <==> ns != []
    ensures ok ==> At(br, ns[1..]) && cells[..] == Painted(blank, order, px + [ns[0]])
  {
    var v;
    ok, v := ReadNibble(br, ns);
    if ok { DrawPixel(cells, width, height, rows, pixelIndex, v, order, blank, px); }
  }

  /** Read and draw pixels with a value each. */
  method DrawLiterals(br: Reader, cells: array<nat>, width: nat, height: nat, rows: bool, first: nat, count: nat,
                      ghost ns: seq<nat>, ghost order: seq<nat>, ghost blank: seq<nat>, ghost px: seq<nat>)
    returns (ok: bool, pixelIndex: nat)
    requires Follows(order, width, height, rows) && first == |px| <= |order| == |blank| && At(br, ns)
    requires cells[..] == Painted(blank, order, px)
    modifies cells, br
    ensures
      var n := Min(count, |order| - |px|);
      && (ok <==> n <= |ns|)
      && (ok ==> pixelIndex == |px| + n && At(br, ns[n..]) && cells[..] == Painted(blank, order, px + ns[..n]))
  {
    pixelIndex := first;
    var n := 0;
    ok := true;
    ghost var left, drawn := ns, px;
    assert px + ns[..0] == px && ns[0..] == ns;
    while n < count && pixelIndex < cells.Length
      invariant 0 <= n <= count && n <= |ns| && pixelIndex == |px| + n <= |order| == cells.Length
      invariant left == ns[n..] && drawn == px + ns[..n]
      invariant At(br, left) && cells[..] == Painted(blank, order, drawn)
      decreases count - n
    {
      ok := DrawLiteral(br, cells, width, height, rows, pixelIndex, left, order, blank, drawn);
      if !ok { return; }
      NextLiteral(ns, n, px);
      left, drawn := left[1..], drawn + [left[0]];
      n := n + 1;
      pixelIndex := pixelIndex + 1;
    }
  }

  lemma {:induction false} NextLiteral(ns: seq<nat>, n: nat, px: seq<nat>)
    requires n < |ns|
    ensures px + ns[..n + 1] == (px + ns[..n]) + [ns[n]] && ns[n..][0] == ns[n] && ns[n..][1..] == ns[n + 1..]
  {}

  lemma {:induction false} LiteralsOf(ns: seq<nat>, n: nat)
    requires 1 + n <= |ns|
    ensures ns[1..][..n] == ns[1..1 + n] && ns[1..][n..] == ns[1 + n..]
  {}

  /** Read one code and draw the pixels that it stands for. */
  method DrawCode(br: Reader, cells: array<nat>, width: nat, height: nat, rows: bool, first: nat,
                  ghost ns: seq<nat>, ghost order: seq<nat>, ghost blank: seq<nat>, ghost px: seq<nat>)
    returns (ok: bool, pixelIndex: nat, ghost more: seq<nat>, ghost used: nat)
    requires Follows(order, width, height, rows) && first == |px| < |order| == |blank|
    requires cells[..] == Painted(blank, order, px)
    requires At(br, ns)
    modifies cells, br
    ensures Code(ns, |order| - |px|) == if ok then Some((more, used)) else None
    ensures ok ==> pixelIndex == |px + more| && At(br, ns[used..]) && cells[..] == Painted(blank, order, px + more)
  {
    pixelIndex, more, used := first, [], 0;
    var code;
    ok, code := ReadNibble(br, ns);
    if !ok { return; }
    if code < 8 {
      ok, pixelIndex, more, used := DrawRunCode(br, cells, width, height, rows, first, code, ns, order, blank, px);
    } else {
      ok, pixelIndex, more, used := DrawLiteralCode(br, cells, width, height, rows, first, code, ns, order, blank, px);
    }
  }

  method DrawRunCode(br: Reader, cells: array<nat>, width: nat, height: nat, rows: bool, first: nat, code: nat,
                  ghost ns: seq<nat>, ghost order: seq<nat>, ghost blank: seq<nat>, ghost px: seq<nat>)
    returns (ok: bool, pixelIndex: nat, ghost more: seq<nat>, ghost used: nat)
    requires Follows(order, width, height, rows) && first == |px| < |order| == |blank|
    requires cells[..] == Painted(blank, order, px)
    requires AllNibbles(ns) && ns != [] && ns[0] == code < 8 && At(br, ns[1..])
    modifies cells, br
    ensures Code(ns, |order| - |px|) == if ok then Some((more, used)) else None
    ensures ok ==> pixelIndex == |px + more| && At(br, ns[used..]) && cells[..] == Painted(blank, order, px + more)
  {
    pixelIndex, more, used := first, [], 0;
    var v;
    ok, v := ReadNibble(br, ns[1..]);
    if !ok { return; }
    LiteralsOf(ns, 1);
    more, used := Repeat(v, Min(code + 1, |order| - |px|)), 2;
    pixelIndex := DrawRun(cells, width, height, rows, pixelIndex, v, code + 1, order, blank, px);
  }

  method DrawLiteralCode(br: Reader, cells: array<nat>, width: nat, height: nat, rows: bool, first: nat, code: nat,
                  ghost ns: seq<nat>, ghost order: seq<nat>, ghost blank: seq<nat>, ghost px: seq<nat>)
    returns (ok: bool, pixelIndex: nat, ghost more: seq<nat>, ghost used: nat)
    requires Follows(order, width, height, rows) && first == |px| < |order| == |blank|
    requires cells[..] == Painted(blank, order, px)
    requires AllNibbles(ns) && ns != [] && ns[0] == code && code >= 8 && At(br, ns[1..])
    modifies cells, br
    ensures Code(ns, |order| - |px|) == if ok then Some((more, used)) else None
    ensures ok ==> pixelIndex == |px + more| && At(br, ns[used..]) && cells[..] == Painted(blank, order, px + more)
  {
    pixelIndex, more, used := first, [], 0;
    ghost var n := Min(16 - code, |order| - |px|);
    ok, pixelIndex := DrawLiterals(br, cells, width, height, rows, pixelIndex, 16 - code,
                                   ns[1..], order, blank, px);
    if !ok { return; }
    LiteralsOf(ns, n);
    more, used := ns[1..1 + n], 1 + n;
  }

  /** Draw all the pixels. */
  method DrawAll(br: Reader, cells: array<nat>, width: nat, height: nat, rows: bool,
                 ghost nibbles: seq<nat>, ghost order: seq<nat>)
    returns (ok: bool)
    requires Follows(order, width, height, rows) && |order| == cells.Length && At(br, nibbles)
    modifies cells, br
    ensures
      var px := Pixels(nibbles, |order|);
      (ok <==> px.Some?) && (ok ==> cells[..] == Painted(old(cells[..]), order, px.value))
  {
    ghost var blank, ns, px := cells[..], nibbles, [];
    ghost var all := Pixels(ns, |order|);
    var pixelIndex := 0;
    ok := true;
    ThenNothing(all, px);
    while pixelIndex < cells.Length
      invariant At(br, ns) && pixelIndex == |px| <= |order|
      invariant Remains(all, px, ns, |order|)
      invariant cells[..] == Painted(blank, order, px)
      decreases |order| - |px|
    {
      ok, pixelIndex, ns, px := DrawNext(br, cells, width, height, rows, pixelIndex, ns, order, blank, px, all);
      if !ok { return; }
    }
    ThenNothing(all, px);
  }

  /** Draw what one code stands for, on the way to all the pixels. */
  method DrawNext(br: Reader, cells: array<nat>, width: nat, height: nat, rows: bool, first: nat,
                  ghost ns: seq<nat>, ghost order: seq<nat>, ghost blank: seq<nat>, ghost px: seq<nat>,
                  ghost all: Option<seq<nat>>)
    returns (ok: bool, pixelIndex: nat, ghost ns': seq<nat>, ghost px': seq<nat>)
    requires Follows(order, width, height, rows) && first == |px| < |order| == |blank|
    requires cells[..] == Painted(blank, order, px) && At(br, ns)
    requires Remains(all, px, ns, |order|)
    modifies cells, br
    ensures !ok ==> all == None
    ensures ok ==> At(br, ns') && |px| < |px'| <= |order| && pixelIndex == |px'|
    ensures ok ==> Remains(all, px', ns', |order|) && cells[..] == Painted(blank, order, px')
  {
    ghost var more, used;
    ok, pixelIndex, more, used := DrawCode(br, cells, width, height, rows, first, ns, order, blank, px);
    if ok {
      CodeRemains(all, px, ns, |order|, more, used);
      ns', px' := ns[used..], px + more;
    } else {
      AfterCode(all, px, ns, |order| - |px|, None);
      ns', px' := [], px;
    }
  }

  /** With the pixels `px` drawn, the nibbles `ns` give the rest. */
  ghost predicate Remains(all: Option<seq<nat>>, px: seq<nat>, ns: seq<nat>, total: nat) {
    |px| <= total && AllNibbles(ns) && all == Then(px, Pixels(ns, total - |px|))
  }

  lemma {:induction false} CodeRemains(all: Option<seq<nat>>, px: seq<nat>, ns: seq<nat>, total: nat,
                                       more: seq<nat>, used: nat)
    requires Remains(all, px, ns, total) && |px| < total && Code(ns, total - |px|) == Some((more, used))
    ensures used <= |ns| && more != [] && Remains(all, px + more, ns[used..], total)
  {
    AfterCode(all, px, ns, total - |px|, Some((more, used)));
  }

  lemma {:induction false} ThenNothing(all: Option<seq<nat>>, px: seq<nat>)
    ensures Then([], all) == all && Then(px, Some([])) == Some(px)
  {
    if all.Some? { assert [] + all.value == all.value; }
    assert px + [] == px;
  }

  /** The picture: the pixels that the codes stand for, each in its cell, or failure when the
    data run out. */
  method ReadPixels(br: Reader, width: nat, height: nat, flags: nat)
    returns (ok: bool, data: array<nat>, ghost nibbles: seq<nat>, ghost order: seq<nat>, ghost blank: seq<nat>)
    requires br.BitOffset < 8
    modifies br
    ensures Follows(order, width, height, And(flags, BMP_OVERLAY) == BMP_H_ROWS)
    ensures Nibbles(br.Data, old(br.Position()), nibbles) && AllNibbles(nibbles)
    ensures fresh(data) && |blank| == |order| == width * height
    ensures
      var px := Pixels(nibbles, |order|);
      (ok <==> px.Some?) && (ok ==> data[..] == Painted(blank, order, px.value))
  {
    var rows := And(flags, BMP_OVERLAY) == BMP_H_ROWS;
    data := new nat[width * height];
    order := TheOrder(width, height, rows);
    blank := data[..];
    nibbles := TheNibbles(br.Data, br.Position());
    ok := DrawAll(br, data, width, height, rows, nibbles, order);
  }

  lemma {:induction false} AfterCode(all: Option<seq<nat>>, px: seq<nat>, ns: seq<nat>, left: nat,
                                     code: Option<(seq<nat>, nat)>)
    requires AllNibbles(ns) && left > 0 && all == Then(px, Pixels(ns, left)) && code == Code(ns, left)
    ensures code.None? ==> all == None
    ensures code.Some? ==>
      all == Then(px + code.value.0, Pixels(ns[code.value.1..], left - |code.value.0|))
  {
    if code.Some? {
      var s, rest := code.value.0, Pixels(ns[code.value.1..], left - |code.value.0|);
      assert Pixels(ns, left) == Then(s, rest);
      if rest.Some? { assert px + (s + rest.value) == (px + s) + rest.value; }
    }
  }

  // ----- whole glyphs -----

  /** Header and cells are those of the glyph that begins at `start`, or of its shadow. */
  ghost predicate IsGlyph(data: seq<Byte>, start: nat, shadow: bool, g: Header, cells: seq<nat>) {
    (exists offset :: StartsAt(data, start, shadow, g, offset)) && exists nibbles :: HasPicture(data, g, cells, nibbles)
  }

  ghost predicate StartsAt(data: seq<Byte>, start: nat, shadow: bool, g: Header, offset: nat) {
    Reads(data, start, 14, offset) && IsHeader(data, HeaderStart(start, shadow, offset), g)
  }

  ghost predicate HasPicture(data: seq<Byte>, g: Header, cells: seq<nat>, nibbles: seq<nat>) {
    && AllNibbles(nibbles) && Nibbles(data, g.dataByteOffset * 8, nibbles)
    && Pixels(nibbles, g.width * g.height).Some?
    && IsPicture(g.width, g.height, And(g.flags, BMP_OVERLAY) == BMP_H_ROWS, cells,
                 Pixels(nibbles, g.width * g.height).value)
  }

  /** The glyph at a pointer into the character data, or its shadow: the header, and the pixels
    in the cells that the header's flags ask for. */
  method Read(charData: seq<Byte>, pointer: nat, shadow: bool) returns (ok: bool, g: Header, data: array<nat>)
    ensures if ok then IsGlyph(charData, pointer * 32, shadow, g, data[..]) else NoGlyph(charData, pointer * 32, shadow)
  {
    var br := new Reader(charData);
    data := new nat[0];
    ghost var offset, flags;
    ok, g, offset, flags := ReadHeader(br, pointer * 4 * 8, shadow);
    if !ok {
      HeaderMissing(charData, pointer * 32, shadow, offset, flags);
      return;
    }
    assert StartsAt(charData, pointer * 32, shadow, g, offset);
    ghost var nibbles, order, blank;
    ok, data, nibbles, order, blank := ReadPixels(br, g.width, g.height, g.flags);
    if ok {
      PictureDone(blank, g.width, g.height, And(g.flags, BMP_OVERLAY) == BMP_H_ROWS, order,
                  Pixels(nibbles, |order|).value);
      assert HasPicture(charData, g, data[..], nibbles);
    } else {
      PixelsMissing(charData, pointer * 32, shadow, g, offset, nibbles);
    }
  }

  /** There is no glyph: the data end in its header or before its last pixel. */
  ghost predicate NoGlyph(data: seq<Byte>, start: nat, shadow: bool) {
    forall g: Header, cells: seq<nat> :: !IsGlyph(data, start, shadow, g, cells)
  }

  lemma {:induction false} HeaderMissing(data: seq<Byte>, start: nat, shadow: bool, offset: nat, flags: nat)
    requires start + 14 <= Bits(data) ==> Reads(data, start, 14, offset)
    requires start + 14 > Bits(data) || CutOff(data, HeaderStart(start, shadow, offset), flags)
    ensures NoGlyph(data, start, shadow)
  {
    forall g: Header, cells: seq<nat>
      ensures !IsGlyph(data, start, shadow, g, cells)
    {
      if IsGlyph(data, start, shadow, g, cells) {
        var offset' :| StartsAt(data, start, shadow, g, offset');
        ReadsIsUnique(data, start, 14, offset, offset');
        NoHeader(data, HeaderStart(start, shadow, offset), flags, g);
      }
    }
  }

  lemma {:induction false} NoHeader(data: seq<Byte>, h: nat, flags: nat, g: Header)
    requires CutOff(data, h, flags)
    ensures !IsHeader(data, h, g)
  {
    if IsHeader(data, h, g) && h + 48 <= Bits(data) {
      ReadsIsUnique(data, h + 42, 6, flags, g.flags);
      HeaderEnds(data, h, g);
    }
  }

  lemma {:induction false} HeaderEnds(data: seq<Byte>, h: nat, g: Header)
    requires IsHeader(data, h, g)
    ensures PixelStart(h, g.flags) <= Bits(data)
  {}

  lemma {:induction false} HeaderIsUnique(data: seq<Byte>, h: nat, g: Header, g': Header)
    requires IsHeader(data, h, g) && IsHeader(data, h, g')
    ensures g == g'
  {
    ReadsIsUnique(data, h + 14, 7, g.width, g'.width);
    ReadsIsUnique(data, h + 21, 7, g.height, g'.height);
    ReadsIsUnique(data, h + 28, 7, g.left, g'.left);
    ReadsIsUnique(data, h + 35, 7, g.top, g'.top);
    ReadsIsUnique(data, h + 42, 6, g.flags, g'.flags);
    if HasFlag(g.flags, CHARGLYPH) {
      ReadsIsUnique(data, PixelStart(h, g.flags) - 8, 8, g.advanceIndex, g'.advanceIndex);
    }
  }

  lemma {:induction false} NibblesAreUnique(data: seq<Byte>, p: nat, ns: seq<nat>, ns': seq<nat>)
    requires Nibbles(data, p, ns) && Nibbles(data, p, ns')
    ensures ns == ns'
  {
    assert |ns| == |ns'|;
    forall k | 0 <= k < |ns| ensures ns[k] == ns'[k] {
      assert NibbleAt(data, p, k, ns[k]) && NibbleAt(data, p, k, ns'[k]);
      ReadsIsUnique(data, p + 4 * k, 4, ns[k], ns'[k]);
    }
  }

  lemma {:induction false} PixelsMissing(data: seq<Byte>, start: nat, shadow: bool, g: Header, offset: nat,
                                         nibbles: seq<nat>)
    requires StartsAt(data, start, shadow, g, offset)
    requires AllNibbles(nibbles) && Nibbles(data, g.dataByteOffset * 8, nibbles)
    requires Pixels(nibbles, g.width * g.height).None?
    ensures NoGlyph(data, start, shadow)
  {
    forall g': Header, cells: seq<nat>
      ensures !IsGlyph(data, start, shadow, g', cells)
    {
      if IsGlyph(data, start, shadow, g', cells) {
        var offset' :| StartsAt(data, start, shadow, g', offset');
        ReadsIsUnique(data, start, 14, offset, offset');
        HeaderIsUnique(data, HeaderStart(start, shadow, offset), g, g');
        var nibbles' :| HasPicture(data, g', cells, nibbles');
        NibblesAreUnique(data, g.dataByteOffset * 8, nibbles, nibbles');
      }
    }
  }

  /** Every cell has the pixel that is its in the order of the rows or of the columns. */
  ghost predicate IsPicture(width: nat, height: nat, rows: bool, cells: seq<nat>, px: seq<nat>) {
    && |cells| == width * height == |px|
    && forall c :: 0 <= c < |cells| ==> HasPixel(width, height, rows, cells, px, c)
  }

  ghost predicate HasPixel(width: nat, height: nat, rows: bool, cells: seq<nat>, px: seq<nat>, c: nat)
    requires |cells| == width * height == |px| && c < |cells|
  {
    var k := Order(width, height, rows, c);
    k < |px| && cells[c] == Shade(px[k])
  }

  lemma {:induction false} PictureDone(blank: seq<nat>, width: nat, height: nat, rows: bool, order: seq<nat>,
                                       px: seq<nat>)
    requires Follows(order, width, height, rows) && |px| == |order| == |blank| == width * height
    ensures IsPicture(width, height, rows, Painted(blank, order, px), px)
  {
    forall c | 0 <= c < |blank|
      ensures HasPixel(width, height, rows, Painted(blank, order, px), px, c)
    {
      PictureIsTransposed(blank, width, height, rows, order, px, c);
    }
  }

  // ----- the map from characters to glyphs -----

  /** A 32-bit number read as a signed one. */
  function ToInt(v: nat): (i: int)
    requires v < 0x1_0000_0000
    ensures -0x8000_0000 <= i < 0x8000_0000
    ensures i == v || i == v - 0x1_0000_0000
  {
    if v < 0x8000_0000 then v else v - 0x1_0000_0000
  }

  /** An entry of 32 bits may look like -1 or another negative number. */
  method GetGlyphId(packedCharMap: seq<Byte>, width: nat, firstGlyph: nat, lastGlyph: nat, c: nat)
    returns (ok: bool, id: int, ghost v: nat)
    requires width <= 32
    ensures c < firstGlyph || c > lastGlyph ==> ok && id == -1
    ensures firstGlyph <= c <= lastGlyph && ok ==>
      Reads(packedCharMap, (c - firstGlyph) * width, width, v) && v < 0x1_0000_0000 && id == ToInt(v)
    ensures width < 32 && firstGlyph <= c <= lastGlyph && ok ==> id == v
    ensures firstGlyph <= c <= lastGlyph ==>
      (ok <==> width == 0 || (c - firstGlyph) * width + width <= Bits(packedCharMap))
  {
    v := 0;
    if c < firstGlyph || c > lastGlyph {
      return true, -1, 0;
    }
    var bits;
    ok, bits := ReadBitsAt(packedCharMap, (c - firstGlyph) * width, width);
    if !ok { return false, 0, 0; }
    WordBound(width);
    v := bits;
    id := ToInt(bits);
  }

  lemma {:induction false} WordBound(width: nat)
    requires width <= 32
    ensures Pow2(width) <= 0x1_0000_0000 && (width < 32 ==> Pow2(width) <= 0x8000_0000)
  {
    Pow2Values();
    Pow2Monotone(width, 32);
    assert Pow2(32) == 2 * Pow2(31);
    if width < 32 { Pow2Monotone(width, 31); }
  }

  /** Looking a character up in the packed map finds what reading the whole map finds. */
  lemma {:induction false} LookupsAgree(packed: seq<Byte>, width: nat, entries: seq<Entry>, k: nat, v: nat)
    requires AllFields(packed, width, 0, entries) && k < |entries| && Reads(packed, k * width, width, v)
    ensures entries[k] == Entry(k, v)
  {
    assert IsField(packed, width, 0, k, entries[k]);
    PlaceIsProduct(0, width, k);
    ReadsIsUnique(packed, k * width, width, v, entries[k].value);
  }
}
