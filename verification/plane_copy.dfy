/**
 Copying the three planes of a 4:2:0 picture row by row between buffers with
 different strides: the capture side copies the smaller stride, the director's side
 copies exactly the picture width.
 */
module PlaneCopy {
  import opened Arithmetic

  newtype Byte = x: int | 0 <= x < 256

  /** The offset of sample (row, col) in a plane. */
  function At(row: nat, stride: nat, col: nat): nat { row * stride + col }

  /** A buffer that holds `rows` rows, the last one at least `cols` wide. */
  predicate Holds(length: nat, stride: nat, rows: nat, cols: nat) {
    cols <= stride && (rows > 0 ==> At(rows - 1, stride, cols) <= length)
  }

  lemma RowsAscend(r: nat, r': nat, stride: nat, col: nat)
    requires r < r' && col < stride
    ensures At(r, stride, col) < At(r', stride, 0)
  {
    LessTimes(r + 1, r', stride);
    assert (r + 1) * stride == r * stride + stride;
  }

  lemma RowFits(length: nat, stride: nat, rows: nat, cols: nat, r: nat, c: nat)
    requires Holds(length, stride, rows, cols) && r < rows && c <= cols
    ensures At(r, stride, c) <= length && (c < cols ==> At(r, stride, c) < length)
  {
    if r < rows - 1 {
      LessTimes(r + 1, rows - 1, stride);
      assert (r + 1) * stride == r * stride + stride;
    }
  }

  /** memcpy of one row. */
  method CopyRow(dst: array<Byte>, d: nat, src: array<Byte>, s: nat, n: nat)
    requires d + n <= dst.Length && s + n <= src.Length && dst != src
    modifies dst
    ensures forall i :: d <= i < d + n ==> dst[i] == src[i - d + s]
    ensures forall i :: 0 <= i < dst.Length && !(d <= i < d + n) ==> dst[i] == old(dst[i])
  {
    var k := 0;
    while k < n
      invariant k <= n
      invariant forall i :: d <= i < d + k ==> dst[i] == src[i - d + s]
      invariant forall i :: 0 <= i < dst.Length && !(d <= i < d + k) ==> dst[i] == old(dst[i])
    {
      dst[d + k] := src[s + k];
      k := k + 1;
    }
  }

  ghost predicate RowSame(dst: seq<Byte>, ds: nat, src: seq<Byte>, ss: nat, r: nat, cols: nat) {
    forall c: nat :: c < cols ==>
      At(r, ds, c) < |dst| && At(r, ss, c) < |src| && dst[At(r, ds, c)] == src[At(r, ss, c)]
  }

  /** The samples (row, col) of two buffers agree on a rectangle. */
  ghost predicate Same(dst: seq<Byte>, ds: nat, src: seq<Byte>, ss: nat, rows: nat, cols: nat) {
    forall r: nat :: r < rows ==> RowSame(dst, ds, src, ss, r, cols)
  }

  /** Offset i belongs to a sample of the rectangle. */
  ghost predicate Covered(i: int, stride: nat, rows: nat, cols: nat) {
    exists r: nat, c: nat :: r < rows && c < cols && i == At(r, stride, c)
  }

  lemma NotCovered(r: nat, c: nat, stride: nat, rows: nat, cols: nat)
    requires c < stride && cols <= stride && (r >= rows || c >= cols)
    ensures !Covered(At(r, stride, c), stride, rows, cols)
  {
    forall r': nat, c': nat | r' < rows && c' < cols ensures At(r, stride, c) != At(r', stride, c') {
      if r < r' { RowsAscend(r, r', stride, c); } else if r' < r { RowsAscend(r', r, stride, c'); }
    }
  }

  /** One row, in terms of samples: earlier rows stay as they are. */
  method CopySampleRow(dst: array<Byte>, ds: nat, src: array<Byte>, ss: nat, row: nat, rows: nat, width: nat)
    requires dst != src && width <= ds && row < rows
    requires At(row, ds, width) <= dst.Length && At(row, ss, width) <= src.Length
    modifies dst
    ensures RowSame(dst[..], ds, src[..], ss, row, width)
    ensures forall r: nat :: r < row && old(RowSame(dst[..], ds, src[..], ss, r, width)) ==>
              RowSame(dst[..], ds, src[..], ss, r, width)
    ensures forall i :: 0 <= i < dst.Length && !Covered(i, ds, rows, width) ==> dst[i] == old(dst[i])
  {
    CopyRow(dst, row * ds, src, row * ss, width);
    forall r: nat, c: nat | r < row && c < width ensures At(r, ds, c) < At(row, ds, 0) { RowsAscend(r, row, ds, c); }
    forall i | row * ds <= i < row * ds + width ensures Covered(i, ds, rows, width) {
      var c: nat := i - row * ds;
      assert i == At(row, ds, c);
    }
  }

  /** Copies every sample of the rectangle and writes nothing outside it. */
  method CopyPlane(dst: array<Byte>, ds: nat, src: array<Byte>, ss: nat, rows: nat, width: nat)
    requires dst != src && Holds(dst.Length, ds, rows, width) && Holds(src.Length, ss, rows, width)
    modifies dst
    ensures Same(dst[..], ds, src[..], ss, rows, width)
    ensures forall i :: 0 <= i < dst.Length && !Covered(i, ds, rows, width) ==> dst[i] == old(dst[i])
  {
    var row := 0;
    while row < rows
      invariant row <= rows && Same(dst[..], ds, src[..], ss, row, width)
      invariant forall i :: 0 <= i < dst.Length && !Covered(i, ds, rows, width) ==> dst[i] == old(dst[i])
    {
      RowFits(dst.Length, ds, rows, width, row, width);
      RowFits(src.Length, ss, rows, width, row, width);
      CopySampleRow(dst, ds, src, ss, row, rows, width);
      row := row + 1;
    }
  }

  // ---- whole pictures ----

  /** The visible size of a plane of a w by h picture: 0 is luma, 1 and 2 are chroma. */
  function Cols(plane: nat, w: nat): nat { if plane == 0 then w else (w + 1) / 2 }

  function Rows(plane: nat, h: nat): nat { if plane == 0 then h else (h + 1) / 2 }

  function Min(a: nat, b: nat): nat { if a < b then a else b }

  lemma NothingCoveredBeyond(i: int, stride: nat, rows: nat, cols: nat)
    requires cols <= stride && rows * stride <= i
    ensures !Covered(i, stride, rows, cols)
  {
    forall r: nat, c: nat | r < rows && c < cols ensures At(r, stride, c) < rows * stride {
      RowsAscend(r, rows, stride, c);
    }
  }

  /** The capture side: whole strides, as many bytes as the narrower one has. Every
      visible sample arrives and nothing past the last row is written. */
  method CapturePlane(dst: array<Byte>, ds: nat, src: array<Byte>, ss: nat, plane: nat, w: nat, h: nat)
    requires dst != src && plane < 3 && Cols(plane, w) <= Min(ds, ss)
    requires Holds(dst.Length, ds, Rows(plane, h), Min(ds, ss)) && Holds(src.Length, ss, Rows(plane, h), Min(ds, ss))
    modifies dst
    ensures Same(dst[..], ds, src[..], ss, Rows(plane, h), Cols(plane, w))
    ensures forall i :: 0 <= i < dst.Length && !Covered(i, ds, Rows(plane, h), Min(ds, ss)) ==> dst[i] == old(dst[i])
    ensures forall i :: Rows(plane, h) * ds <= i < dst.Length ==> dst[i] == old(dst[i])
  {
    var rows, width := Rows(plane, h), Min(ds, ss);
    CopyPlane(dst, ds, src, ss, rows, width);
    forall r: nat | r < rows ensures RowSame(dst[..], ds, src[..], ss, r, Cols(plane, w)) {
      assert RowSame(dst[..], ds, src[..], ss, r, width);
    }
    forall i | rows * ds <= i < dst.Length ensures dst[i] == old(dst[i]) {
      NothingCoveredBeyond(i, ds, rows, width);
    }
  }

  /** The director's side: exactly w, then w/2 samples of each of h, then h/2 rows. For
      even sizes that is every visible sample; otherwise the last chroma row or column
      keeps whatever the buffer held. */
  method ReaderPlane(dst: array<Byte>, ds: nat, src: array<Byte>, ss: nat, plane: nat, w: nat, h: nat)
    requires dst != src && plane < 3
    requires Holds(dst.Length, ds, Rows(plane, h), Cols(plane, w))
    requires Holds(src.Length, ss, Rows(plane, h), Cols(plane, w))
    modifies dst
    ensures Same(dst[..], ds, src[..], ss, if plane == 0 then h else h / 2, if plane == 0 then w else w / 2)
    ensures plane == 0 || (w % 2 == 0 && h % 2 == 0) ==> Same(dst[..], ds, src[..], ss, Rows(plane, h), Cols(plane, w))
    ensures forall i :: Rows(plane, h) * ds <= i < dst.Length ==> dst[i] == old(dst[i])
    ensures forall r: nat, c: nat ::
              r < Rows(plane, h) && c < Cols(plane, w) && plane != 0 && (r == h / 2 || c == w / 2)
              ==> At(r, ds, c) < dst.Length && dst[At(r, ds, c)] == old(dst[At(r, ds, c)])
  {
    var rows, cols := if plane == 0 then h else h / 2, if plane == 0 then w else w / 2;
    HoldsLess(dst.Length, ds, Rows(plane, h), Cols(plane, w), rows, cols);
    HoldsLess(src.Length, ss, Rows(plane, h), Cols(plane, w), rows, cols);
    CopyPlane(dst, ds, src, ss, rows, cols);
    forall r: nat, c: nat | r < Rows(plane, h) && c < Cols(plane, w) && plane != 0 && (r == h / 2 || c == w / 2)
      ensures At(r, ds, c) < dst.Length && dst[At(r, ds, c)] == old(dst[At(r, ds, c)])
    {
      RowFits(dst.Length, ds, Rows(plane, h), Cols(plane, w), r, c);
      NotCovered(r, c, ds, rows, cols);
    }
    forall i | Rows(plane, h) * ds <= i < dst.Length ensures dst[i] == old(dst[i]) {
      LessTimes(rows, Rows(plane, h), ds);
      NothingCoveredBeyond(i, ds, rows, cols);
    }
  }

  lemma HoldsLess(length: nat, stride: nat, rows: nat, cols: nat, rows': nat, cols': nat)
    requires Holds(length, stride, rows, cols) && rows' <= rows && cols' <= cols
    ensures Holds(length, stride, rows', cols')
  {
    if rows' > 0 { RowFits(length, stride, rows, cols, rows' - 1, cols'); }
  }

  /** Two copies of one source that each show every visible sample show the same image,
      whatever their strides. */
  lemma CopiesShowTheSameImage(a: seq<Byte>, sa: nat, b: seq<Byte>, sb: nat, src: seq<Byte>, ss: nat,
                               rows: nat, cols: nat)
    requires Same(a, sa, src, ss, rows, cols) && Same(b, sb, src, ss, rows, cols)
    ensures Same(a, sa, b, sb, rows, cols)
  {
    forall r: nat | r < rows ensures RowSame(a, sa, b, sb, r, cols) {
      assert RowSame(a, sa, src, ss, r, cols) && RowSame(b, sb, src, ss, r, cols);
    }
  }

  /** So for even sizes the capture side and the director's side, copying one source, show
      the same image. */
  method BothCopies(a: array<Byte>, sa: nat, b: array<Byte>, sb: nat, src: array<Byte>, ss: nat,
                    plane: nat, w: nat, h: nat)
    requires a != src && b != src && a != b && plane < 3 && w % 2 == 0 && h % 2 == 0 && Cols(plane, w) <= Min(sa, ss)
    requires Holds(a.Length, sa, Rows(plane, h), Min(sa, ss)) && Holds(src.Length, ss, Rows(plane, h), Min(sa, ss))
    requires Holds(b.Length, sb, Rows(plane, h), Cols(plane, w))
    modifies a, b
    ensures Same(a[..], sa, b[..], sb, Rows(plane, h), Cols(plane, w))
  {
    HoldsLess(src.Length, ss, Rows(plane, h), Min(sa, ss), Rows(plane, h), Cols(plane, w));
    CapturePlane(a, sa, src, ss, plane, w, h);
    ghost var image := a[..];
    ReaderPlane(b, sb, src, ss, plane, w, h);
    assert a[..] == image;
    CopiesShowTheSameImage(a[..], sa, b[..], sb, src[..], ss, Rows(plane, h), Cols(plane, w));
  }
}
