/**
  The byte buffer behind every canvas: strided rows of 4-byte pixels, clipped blits
  between buffers and overlapping moves inside one.
 */
module FrameBuffer {
  import opened Common

  newtype Byte = x: int | 0 <= x < 256

  type Color = (Byte, Byte, Byte)

  datatype PixelFormat = RGBResv8BitPerColor | BGRResv8BitPerColor

  const BYTES_PER_PIXEL: nat := 4

  datatype Vec2 = Vec2(x: int, y: int)

  // ---------------------------------------------------------------- rectangles

  datatype Rect = Rect(x1: int, y1: int, x2: int, y2: int) {
    predicate Has(x: int, y: int) {
      x1 <= x < x2 && y1 <= y < y2
    }

    function MoveRelative(dx: int, dy: int): (r: Rect)
      ensures forall x, y :: r.Has(x, y) <==> Has(x - dx, y - dy)
    {
      Rect(x1 + dx, y1 + dy, x2 + dx, y2 + dy)
    }

    predicate ContainedBy(other: Rect) {
      other.x1 <= x1 && other.y1 <= y1 && x2 <= other.x2 && y2 <= other.y2
    }

    /** None exactly when the rectangles share no point. */
    function Intersection(other: Rect): (r: Option<Rect>)
      ensures r.Some? ==> r.value.x1 < r.value.x2 && r.value.y1 < r.value.y2
      ensures r.Some? ==> r.value.ContainedBy(this) && r.value.ContainedBy(other)
      ensures r.Some? ==> forall x, y :: r.value.Has(x, y) <==> Has(x, y) && other.Has(x, y)
      ensures r.None? ==> forall x, y :: !(Has(x, y) && other.Has(x, y))
    {
      var left, right := Max(x1, other.x1), Min(x2, other.x2);
      if left >= right then None else
      var top, bottom := Max(y1, other.y1), Min(y2, other.y2);
      if top >= bottom then None else Some(Rect(left, top, right, bottom))
    }
  }

  function Max(a: int, b: int): int { if a < b then b else a }

  function Min(a: int, b: int): int { if a < b then a else b }

  function FromWh(x: int, y: int, w: int, h: int): Rect {
    Rect(x, y, x + w, y + h)
  }

  // ---------------------------------------------------------------- where a byte is

  /** Byte b of the pixel (x, y) in rows of `stride` pixels. */
  function At(stride: nat, x: int, y: int, b: int): int {
    (y * stride + x) * BYTES_PER_PIXEL + b
  }

  lemma RowsOrdered(stride: nat, y: int, y': int)
    requires y < y'
    ensures y * stride + stride <= y' * stride
  {
    assert y' * stride == y * stride + stride + (y' - y - 1) * stride;
  }

  lemma InBuffer(stride: nat, height: nat, x: int, y: int, b: int)
    requires 0 <= x < stride && 0 <= y < height && 0 <= b < BYTES_PER_PIXEL
    ensures 0 <= At(stride, x, y, b) < stride * height * BYTES_PER_PIXEL
  {
    RowsOrdered(stride, y, height);
    assert y * stride >= 0;
  }

  /** The bytes between two columns of one row are exactly the pixels between them. */
  lemma RowMembership(stride: nat, x1: int, x2: int, row: int, x: int, y: int, b: int)
    requires 0 <= x1 <= x2 <= stride && 0 <= x < stride && 0 <= b < BYTES_PER_PIXEL
    ensures At(stride, x1, row, 0) <= At(stride, x, y, b) < At(stride, x2, row, 0) <==> y == row && x1 <= x < x2
  {
    if y < row { RowsOrdered(stride, y, row); }
    if row < y { RowsOrdered(stride, row, y); }
  }

  lemma PixelOfByte(stride: nat, height: nat, i: nat) returns (x: nat, y: nat, b: nat)
    requires i < stride * height * BYTES_PER_PIXEL
    ensures x < stride && y < height && b < BYTES_PER_PIXEL && At(stride, x, y, b) == i
  {
    var p := i / BYTES_PER_PIXEL;
    assert stride > 0;
    x, y, b := p % stride, p / stride, i % BYTES_PER_PIXEL;
    assert p == y * stride + x;
    if y >= height { RowsOrdered(stride, height - 1, y); }
  }

  /** Every byte of a buffer belongs to exactly one pixel, so a statement about pixels covers it. */
  lemma EveryByteIsInAPixel(stride: nat, height: nat, i: nat) returns (x: nat, y: nat, b: nat)
    requires i < stride * height * BYTES_PER_PIXEL
    ensures x < stride && y < height && b < BYTES_PER_PIXEL && At(stride, x, y, b) == i
    ensures forall x', y', b' ::
      0 <= x' < stride && 0 <= b' < BYTES_PER_PIXEL && At(stride, x', y', b') == i ==> (x', y', b') == (x, y, b)
  {
    x, y, b := PixelOfByte(stride, height, i);
    forall x', y', b' | 0 <= x' < stride && 0 <= b' < BYTES_PER_PIXEL && At(stride, x', y', b') == i
      ensures (x', y', b') == (x, y, b)
    {
      RowMembership(stride, x, x + 1, y, x', y', b');
    }
  }

  /** Pixel (x, y) is one of [x1, x2) in row `row`. */
  predicate InRow(x: int, y: int, x1: int, x2: int, row: int) {
    y == row && x1 <= x < x2
  }

  /** Where the bytes of a row slice come from when it is copied from (fromX, fromRow) to (toX, toRow). */
  lemma SliceOfRow(stride: nat, toX: int, toRow: int, w: nat, fromStride: nat, fromX: int, fromRow: int,
                   x: int, y: int, b: int)
    requires 0 <= toX && toX + w <= stride && 0 <= x < stride && 0 <= b < BYTES_PER_PIXEL
    ensures var at, to, start := At(stride, x, y, b), At(stride, toX, toRow, 0), At(fromStride, fromX, fromRow, 0);
      && (to <= at < to + w * BYTES_PER_PIXEL <==> InRow(x, y, toX, toX + w, toRow))
      && (InRow(x, y, toX, toX + w, toRow) ==> start + (at - to) == At(fromStride, x - toX + fromX, fromRow, b))
  {
    RowMembership(stride, toX, toX + w, toRow, x, y, b);
  }

  /** A slice of a row lies inside the buffer. */
  lemma SliceInside(stride: nat, height: nat, x: int, w: nat, row: int)
    requires 0 <= x && x + w <= stride && 0 <= row < height
    ensures 0 <= At(stride, x, row, 0)
    ensures At(stride, x, row, 0) + w * BYTES_PER_PIXEL <= stride * height * BYTES_PER_PIXEL
  {
    RowsOrdered(stride, row, height);
    assert row * stride >= 0;
  }

  // ---------------------------------------------------------------- the buffer

  class FrameBuffer {
    const data: array<Byte>
    // pixels_per_scanline, horizontal_resolution, vertical_resolution
    const stride: nat
    const width: nat
    const height: nat
    const format: PixelFormat

    ghost predicate Valid() {
      data.Length == stride * height * BYTES_PER_PIXEL && width <= stride
    }

    /** A byte of the buffer, padding at the end of rows included. */
    ghost predicate Inside(x: int, y: int, b: int) {
      0 <= x < stride && 0 <= y < height && 0 <= b < BYTES_PER_PIXEL
    }

    ghost function ByteAt(x: int, y: int, b: int): Byte
      requires Valid() && Inside(x, y, b)
      reads data
    {
      InBuffer(stride, height, x, y, b);
      data[At(stride, x, y, b)]
    }

    function Screen(): Rect {
      FromWh(0, 0, width, height)
    }

    constructor (width: nat, height: nat, format: PixelFormat)
      ensures Valid() && fresh(data)
      ensures this.width == this.stride == width && this.height == height && this.format == format
    {
      this.data := new Byte[width * height * BYTES_PER_PIXEL](_ => 0);
      this.stride, this.width, this.height, this.format := width, width, height, format;
    }

    /** A buffer over video memory, whose rows may be padded and whose contents are not known. */
    constructor FromRaw(data: array<Byte>, stride: nat, width: nat, height: nat, format: PixelFormat)
      requires data.Length == stride * height * BYTES_PER_PIXEL && width <= stride
      ensures Valid() && this.data == data
      ensures this.stride == stride && this.width == width && this.height == height && this.format == format
    {
      this.data := data;
      this.stride, this.width, this.height, this.format := stride, width, height, format;
    }

    function ColorAt(x: int, y: int): Color
      requires Valid() && 0 <= x < stride && 0 <= y < height
      reads data
    {
      InBuffer(stride, height, x, y, 0);
      InBuffer(stride, height, x, y, 3);
      var i := At(stride, x, y, 0);
      match format
      case BGRResv8BitPerColor => (data[i + 2], data[i + 1], data[i])
      case RGBResv8BitPerColor => (data[i], data[i + 1], data[i + 2])
    }

    /** Where the components of a pixel lie: blue, green, red or red, green, blue, with the reserved byte last. */
    lemma ColorIsBytes(x: int, y: int)
      requires Valid() && 0 <= x < stride && 0 <= y < height
      ensures format == BGRResv8BitPerColor ==>
        ByteAt(x, y, 0) == ColorAt(x, y).2 && ByteAt(x, y, 1) == ColorAt(x, y).1 && ByteAt(x, y, 2) == ColorAt(x, y).0
      ensures format == RGBResv8BitPerColor ==>
        ByteAt(x, y, 0) == ColorAt(x, y).0 && ByteAt(x, y, 1) == ColorAt(x, y).1 && ByteAt(x, y, 2) == ColorAt(x, y).2
    {
    }

    /** The pixel takes the colour; the reserved byte and all other pixels keep their values. */
    method Write(pos: Vec2, color: Color)
      requires Valid() && 0 <= pos.x < stride && 0 <= pos.y < height
      modifies data
      ensures forall x, y :: 0 <= x < stride && 0 <= y < height ==>
                ColorAt(x, y) == if x == pos.x && y == pos.y then color else old(ColorAt(x, y))
      ensures forall x, y, b :: Inside(x, y, b) && ((x, y) != (pos.x, pos.y) || b == 3) ==>
        ByteAt(x, y, b) == old(ByteAt(x, y, b))
      ensures format == BGRResv8BitPerColor ==>
        && ByteAt(pos.x, pos.y, 0) == color.2 && ByteAt(pos.x, pos.y, 1) == color.1
        && ByteAt(pos.x, pos.y, 2) == color.0
      ensures format == RGBResv8BitPerColor ==>
        && ByteAt(pos.x, pos.y, 0) == color.0 && ByteAt(pos.x, pos.y, 1) == color.1
        && ByteAt(pos.x, pos.y, 2) == color.2
    {
      InBuffer(stride, height, pos.x, pos.y, 0);
      InBuffer(stride, height, pos.x, pos.y, 3);
      var i := At(stride, pos.x, pos.y, 0);
      match format {
        case BGRResv8BitPerColor =>
          data[i], data[i + 1], data[i + 2] := color.2, color.1, color.0;
        case RGBResv8BitPerColor =>
          data[i], data[i + 1], data[i + 2] := color.0, color.1, color.2;
      }
      forall x, y, b | Inside(x, y, b) && ((x, y) != (pos.x, pos.y) || b == 3)
        ensures ByteAt(x, y, b) == old(ByteAt(x, y, b))
      {
        RowMembership(stride, pos.x, pos.x + 1, pos.y, x, y, b);
      }
      forall x, y | 0 <= x < stride && 0 <= y < height && (x, y) != (pos.x, pos.y)
        ensures ColorAt(x, y) == old(ColorAt(x, y))
      {
        assert ByteAt(x, y, 0) == old(ByteAt(x, y, 0)) && ByteAt(x, y, 1) == old(ByteAt(x, y, 1));
        assert ByteAt(x, y, 2) == old(ByteAt(x, y, 2));
      }
    }

    /** One row of a blit: the pixels [x1, x2) of row `row`, from pixel (fromX, fromRow) on. */
    method CopyRow(x1: int, x2: int, row: int, from: FrameBuffer, fromX: int, fromRow: int)
      requires Valid() && from.Valid() && from.data != data
      requires 0 <= x1 <= x2 <= stride && 0 <= row < height
      requires 0 <= fromX && fromX + x2 - x1 <= from.stride && 0 <= fromRow < from.height
      modifies data
      ensures forall x, y, b :: Inside(x, y, b) ==>
        ByteAt(x, y, b) == if InRow(x, y, x1, x2, row) then from.ByteAt(x - x1 + fromX, fromRow, b)
                           else old(ByteAt(x, y, b))
    {
      var to, start := At(stride, x1, row, 0), At(from.stride, fromX, fromRow, 0);
      var n := (x2 - x1) * BYTES_PER_PIXEL;
      SliceInside(stride, height, x1, x2 - x1, row);
      SliceInside(from.stride, from.height, fromX, x2 - x1, fromRow);
      forall i | 0 <= i < n {
        data[to + i] := from.data[start + i];
      }
      forall x, y, b | Inside(x, y, b)
        ensures ByteAt(x, y, b) == if InRow(x, y, x1, x2, row) then from.ByteAt(x - x1 + fromX, fromRow, b)
                                   else old(ByteAt(x, y, b))
      {
        SliceOfRow(stride, x1, row, x2 - x1, from.stride, fromX, fromRow, x, y, b);
      }
    }

    /** The part of `from`, placed at `pos`, that falls on this buffer replaces what was there. */
    method Copy(pos: Vec2, from: FrameBuffer)
      requires Valid() && from.Valid() && from.data != data
      modifies data
      ensures forall x, y, b :: Inside(x, y, b) ==>
                ByteAt(x, y, b) == if Screen().Has(x, y) && FromWh(pos.x, pos.y, from.width, from.height).Has(x, y)
                                   then from.ByteAt(x - pos.x, y - pos.y, b) else old(ByteAt(x, y, b))
      ensures from.format == format ==> forall x, y :: 0 <= x < stride && 0 <= y < height ==>
                ColorAt(x, y) == if Screen().Has(x, y) && FromWh(pos.x, pos.y, from.width, from.height).Has(x, y)
                                 then from.ColorAt(x - pos.x, y - pos.y) else old(ColorAt(x, y))
    {
      var modified := Screen().Intersection(FromWh(pos.x, pos.y, from.width, from.height));
      if modified.None? {
        return;
      }
      var m := modified.value;
      var c := m.MoveRelative(-pos.x, -pos.y);
      var k := 0;
      while k < m.y2 - m.y1
        invariant 0 <= k <= m.y2 - m.y1
        invariant forall x, y, b :: Inside(x, y, b) ==>
                    ByteAt(x, y, b) == if m.Has(x, y) && y < m.y1 + k then from.ByteAt(x - pos.x, y - pos.y, b)
                                       else old(ByteAt(x, y, b))
      {
        CopyRow(m.x1, m.x2, m.y1 + k, from, c.x1, c.y1 + k);
        k := k + 1;
      }
      forall x, y | 0 <= x < stride && 0 <= y < height && from.format == format
        ensures ColorAt(x, y) == if m.Has(x, y) then from.ColorAt(x - pos.x, y - pos.y) else old(ColorAt(x, y))
      {
        if m.Has(x, y) {
          SameColor(x, y, from, x - pos.x, y - pos.y);
        } else {
          assert ByteAt(x, y, 0) == old(ByteAt(x, y, 0)) && ByteAt(x, y, 1) == old(ByteAt(x, y, 1));
          assert ByteAt(x, y, 2) == old(ByteAt(x, y, 2));
        }
      }
    }

    /** Equal bytes in equal formats are equal colours. */
    lemma SameColor(x: int, y: int, other: FrameBuffer, x': int, y': int)
      requires Valid() && other.Valid() && other.format == format
      requires 0 <= x < stride && 0 <= y < height && 0 <= x' < other.stride && 0 <= y' < other.height
      requires forall b :: 0 <= b < 3 ==> ByteAt(x, y, b) == other.ByteAt(x', y', b)
      ensures ColorAt(x, y) == other.ColorAt(x', y')
    {
      assert ByteAt(x, y, 0) == other.ByteAt(x', y', 0) && ByteAt(x, y, 1) == other.ByteAt(x', y', 1);
      assert ByteAt(x, y, 2) == other.ByteAt(x', y', 2);
    }

    /** `copy_within` on one row: a move of bytes that may overlap. */
    method MoveRow(x1: int, x2: int, row: int, toX: int, toRow: int)
      requires Valid() && 0 <= x1 <= x2 <= stride && 0 <= row < height
      requires 0 <= toX && toX + x2 - x1 <= stride && 0 <= toRow < height
      modifies data
      ensures forall x, y, b :: Inside(x, y, b) ==>
        ByteAt(x, y, b) == old(if InRow(x, y, toX, toX + x2 - x1, toRow) then ByteAt(x - toX + x1, row, b)
                               else ByteAt(x, y, b))
    {
      var start, to := At(stride, x1, row, 0), At(stride, toX, toRow, 0);
      SliceInside(stride, height, x1, x2 - x1, row);
      SliceInside(stride, height, toX, x2 - x1, toRow);
      CopyWithin(start, to, (x2 - x1) * BYTES_PER_PIXEL);
      forall x, y, b | Inside(x, y, b)
        ensures ByteAt(x, y, b) == old(if InRow(x, y, toX, toX + x2 - x1, toRow) then ByteAt(x - toX + x1, row, b)
                                       else ByteAt(x, y, b))
      {
        SliceOfRow(stride, toX, toRow, x2 - x1, stride, x1, row, x, y, b);
        InBuffer(stride, height, x, y, b);
      }
    }

    /** The slice operation of the same name: `n` bytes move as from a snapshot. */
    method CopyWithin(start: nat, to: nat, n: nat)
      requires start + n <= data.Length && to + n <= data.Length
      modifies data
      ensures forall i :: 0 <= i < data.Length ==>
        data[i] == old(if to <= i < to + n then data[start + (i - to)] else data[i])
    {
      forall i | 0 <= i < n {
        data[to + i] := data[start + i];
      }
    }

    /** The row loops of `MoveRect`: the order of the rows keeps a row from being overwritten before it is read. */
    method MoveRows(to: Vec2, rect: Rect)
      requires Valid() && rect.ContainedBy(Screen())
      requires rect.y1 < rect.y2 ==> rect.x1 <= rect.x2 && 0 <= to.x && to.x + rect.x2 - rect.x1 <= stride
      requires rect.y1 < rect.y2 ==> 0 <= to.y && to.y + rect.y2 - rect.y1 <= height
      modifies data
      ensures forall x, y, b :: Inside(x, y, b) ==>
                ByteAt(x, y, b) == old(if FromWh(to.x, to.y, rect.x2 - rect.x1, rect.y2 - rect.y1).Has(x, y)
                                       then ByteAt(x - to.x + rect.x1, y - to.y + rect.y1, b) else ByteAt(x, y, b))
    {
      ghost var area := FromWh(to.x, to.y, rect.x2 - rect.x1, rect.y2 - rect.y1);
      var rows := rect.y2 - rect.y1;
      if to.y <= rect.y1 {
        var k := 0;
        while k < rows
          invariant 0 <= k && (rows >= 0 ==> k <= rows)
          invariant forall x, y, b :: Inside(x, y, b) ==>
                      ByteAt(x, y, b) == old(if area.Has(x, y) && y < to.y + k
                                             then ByteAt(x - to.x + rect.x1, y - to.y + rect.y1, b)
                                             else ByteAt(x, y, b))
        {
          MoveRow(rect.x1, rect.x2, k + rect.y1, to.x, k + to.y);
          k := k + 1;
        }
      } else {
        var k := Max(rows, 0);
        while k > 0
          invariant 0 <= k <= Max(rows, 0)
          invariant forall x, y, b :: Inside(x, y, b) ==>
                      ByteAt(x, y, b) == old(if area.Has(x, y) && y >= to.y + k
                                             then ByteAt(x - to.x + rect.x1, y - to.y + rect.y1, b)
                                             else ByteAt(x, y, b))
        {
          k := k - 1;
          MoveRow(rect.x1, rect.x2, k + rect.y1, to.x, k + to.y);
        }
      }
    }

    /**
      Afterwards the destination shows the pixels the source had before the call, whatever the
      overlap, and every other byte is as it was.
     */
    method MoveRect(to: Vec2, rect: Rect)
      requires Valid() && rect.ContainedBy(Screen())
      requires rect.y1 < rect.y2 ==> rect.x1 <= rect.x2 && 0 <= to.x && to.x + rect.x2 - rect.x1 <= stride
      requires rect.y1 < rect.y2 ==> 0 <= to.y && to.y + rect.y2 - rect.y1 <= height
      modifies data
      ensures forall x, y, b :: Inside(x, y, b) ==>
                ByteAt(x, y, b) == old(if FromWh(to.x, to.y, rect.x2 - rect.x1, rect.y2 - rect.y1).Has(x, y)
                                       then ByteAt(x - to.x + rect.x1, y - to.y + rect.y1, b) else ByteAt(x, y, b))
      ensures forall x, y :: 0 <= x < stride && 0 <= y < height ==>
                ColorAt(x, y) == old(if FromWh(to.x, to.y, rect.x2 - rect.x1, rect.y2 - rect.y1).Has(x, y)
                                     then ColorAt(x - to.x + rect.x1, y - to.y + rect.y1) else ColorAt(x, y))
    {
      ghost var area := FromWh(to.x, to.y, rect.x2 - rect.x1, rect.y2 - rect.y1);
      MoveRows(to, rect);
      forall x, y | 0 <= x < stride && 0 <= y < height
        ensures ColorAt(x, y) ==
          old(if area.Has(x, y) then ColorAt(x - to.x + rect.x1, y - to.y + rect.y1) else ColorAt(x, y))
      {
        ghost var x' := if area.Has(x, y) then x - to.x + rect.x1 else x;
        ghost var y' := if area.Has(x, y) then y - to.y + rect.y1 else y;
        assert ByteAt(x, y, 0) == old(ByteAt(x', y', 0)) && ByteAt(x, y, 1) == old(ByteAt(x', y', 1));
        assert ByteAt(x, y, 2) == old(ByteAt(x', y', 2));
      }
    }
  }
}
