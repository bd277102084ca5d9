/**
 A raster of equally sized cells drawn into padded byte rows, the way
 mnist2bmp fills its band buffer.

 `cells[r][c]` is cell `c` of raster row `r`; every cell is `width` bytes.
 A raster row is its cells left to right, then zero padding up to `w`
 bytes. The buffer is the raster rows laid end to end, and `memcpy` draws
 one cell at a time into it. Nothing here depends on what the cells hold.
 */
module Raster {
  import opened Arith

  function Zeros(n: nat): (r: seq<bv8>)
    ensures |r| == n
  {
    seq(n, _ => 0)
  }

  /** Byte strings laid end to end. */
  function Flatten(parts: seq<seq<bv8>>): seq<bv8>
  {
    if parts == [] then [] else Flatten(parts[..|parts| - 1]) + parts[|parts| - 1]
  }

  /** `memcpy(&buf[dst], bytes, |bytes|)`. */
  function Memcpy(buf: seq<bv8>, dst: nat, bytes: seq<bv8>): (r: seq<bv8>)
    requires dst + |bytes| <= |buf|
    ensures |r| == |buf|
  {
    buf[..dst] + bytes + buf[dst + |bytes|..]
  }

  /** `s` followed by zero bytes up to length `w`. */
  function Pad(s: seq<bv8>, w: nat): (r: seq<bv8>)
    ensures |s| <= w ==> |r| == w
  {
    if |s| <= w then s + Zeros(w - |s|) else s
  }

  /** Every part is `w` bytes long. */
  predicate Uniform(parts: seq<seq<bv8>>, w: nat)
  {
    forall r :: 0 <= r < |parts| ==> |parts[r]| == w
  }

  /** Every raster row has `n` cells. */
  predicate Rect(cells: seq<seq<seq<bv8>>>, n: nat)
  {
    forall r :: 0 <= r < |cells| ==> |cells[r]| == n
  }

  /** Every raster row has `n` cells of `width` bytes. */
  predicate Grid(cells: seq<seq<seq<bv8>>>, n: nat, width: nat)
  {
    Rect(cells, n) && forall r :: 0 <= r < |cells| ==> Uniform(cells[r], width)
  }

  /** A raster row with its first `m` cells drawn and zeros after them. */
  function Drawn(row: seq<seq<bv8>>, m: nat, w: nat): seq<bv8>
    requires m <= |row|
  {
    Pad(Flatten(row[..m]), w)
  }

  /** Raster rows `lo` up to `hi` with the first `m` cells of each drawn, laid end to end. */
  function Rows(cells: seq<seq<seq<bv8>>>, n: nat, m: nat, w: nat, lo: nat, hi: nat): seq<bv8>
    requires Rect(cells, n) && m <= n && lo <= hi <= |cells|
    decreases hi
  {
    if hi == lo then [] else Rows(cells, n, m, w, lo, hi - 1) + Drawn(cells[hi - 1], m, w)
  }

  /** The buffer once the first `m` cells of every raster row are drawn. */
  function Filled(cells: seq<seq<seq<bv8>>>, n: nat, m: nat, w: nat): seq<bv8>
    requires Rect(cells, n) && m <= n
  {
    Rows(cells, n, m, w, 0, |cells|)
  }

  /** The buffer while cell `m` is being drawn: raster rows before `k` have it. */
  function InProgress(cells: seq<seq<seq<bv8>>>, n: nat, m: nat, k: nat, w: nat): seq<bv8>
    requires Rect(cells, n) && m < n && k <= |cells|
  {
    Rows(cells, n, m + 1, w, 0, k) + Rows(cells, n, m, w, k, |cells|)
  }

  /** Cell `m` of every raster row is row `k` of `image`, an image of `width`-byte rows. */
  predicate ColumnOf(cells: seq<seq<seq<bv8>>>, n: nat, m: nat, image: seq<bv8>, width: nat)
    requires Rect(cells, n) && m < n
  {
    forall k :: 0 <= k < |cells| ==>
      Times(k, width) + width <= |image| && cells[k][m] == image[Times(k, width) .. Times(k, width) + width]
  }

  // ---------------------------------------------------------------------
  // Flatten and Memcpy.

  lemma {:induction false} FlattenLength(parts: seq<seq<bv8>>, w: nat)
    requires Uniform(parts, w)
    ensures |Flatten(parts)| == Times(|parts|, w)
  {
    if parts != [] {
      FlattenLength(parts[..|parts| - 1], w);
      TimesSucc(|parts| - 1, w);
    }
  }

  /** Byte `c` of part `j` sits at `j * w + c` of the parts laid end to end. */
  lemma {:induction false} FlattenIndex(parts: seq<seq<bv8>>, w: nat, j: nat, c: nat)
    requires Uniform(parts, w) && j < |parts| && c < w
    ensures Times(j, w) + c < |Flatten(parts)|
    ensures Flatten(parts)[Times(j, w) + c] == parts[j][c]
    decreases |parts|
  {
    var init := parts[..|parts| - 1];
    FlattenLength(parts, w);
    FlattenLength(init, w);
    TimesSucc(j, w);
    TimesMonotone(j + 1, |parts|, w);
    if j < |parts| - 1 {
      FlattenIndex(init, w, j, c);
      TimesMonotone(j + 1, |init|, w);
    }
  }

  /** Byte `y` of row `k` of `m` rows of `w` bytes followed by one more row. */
  lemma StackIndex(front: seq<bv8>, last: seq<bv8>, m: nat, w: nat, k: nat, y: nat)
    requires |front| == Times(m, w) && |last| == w && k <= m && y < w
    ensures Times(k, w) + y < |front + last|
    ensures k < m ==> Times(k, w) + y < |front|
    ensures (front + last)[Times(k, w) + y] == if k < m then front[Times(k, w) + y] else last[y]
  {
    TimesSucc(k, w);
    TimesMonotone(k + 1, m + 1, w);
    TimesSucc(m, w);
    if k < m {
      TimesMonotone(k + 1, m, w);
    }
  }

  lemma ZerosConcat(m: nat, n: nat)
    ensures Zeros(m) + Zeros(n) == Zeros(m + n)
  {
  }

  /** Dropping the last part of a prefix: the prefix of `m + 1` parts is that of `m` and part `m`. */
  lemma FlattenSnoc(parts: seq<seq<bv8>>, m: nat)
    requires m < |parts|
    ensures Flatten(parts[..m + 1]) == Flatten(parts[..m]) + parts[m]
  {
    assert parts[..m + 1][..m] == parts[..m];
  }

  /** A `memcpy` to the end of `a` overwrites the front of what follows it. */
  lemma MemcpyAfter(a: seq<bv8>, rest: seq<bv8>, b: seq<bv8>)
    requires |b| <= |rest|
    ensures Memcpy(a + rest, |a|, b) == (a + b) + rest[|b|..]
  {
    assert (a + rest)[..|a|] == a;
    assert (a + rest)[|a| + |b|..] == rest[|b|..];
  }

  lemma MemcpyMiddle(a: seq<bv8>, row: seq<bv8>, c: seq<bv8>, x: nat, b: seq<bv8>)
    requires x + |b| <= |row|
    ensures Memcpy(a + row + c, |a| + x, b) == a + Memcpy(row, x, b) + c
  {
    var whole := a + row + c;
    assert whole[..|a| + x] == a + row[..x];
    assert whole[|a| + x + |b|..] == row[x + |b|..] + c;
  }

  // ---------------------------------------------------------------------
  // Drawing one raster row.

  /** A row of `width`-byte cells that fits in `w` bytes keeps that length with any number of cells drawn. */
  lemma DrawnLength(row: seq<seq<bv8>>, width: nat, m: nat, w: nat)
    requires Uniform(row, width) && m <= |row| && Times(|row|, width) <= w
    ensures |Flatten(row[..m])| == Times(m, width) <= w
    ensures |Drawn(row, m, w)| == w
  {
    assert Uniform(row[..m], width);
    FlattenLength(row[..m], width);
    TimesMonotone(m, |row|, width);
  }

  /** Copying cell `m` to byte `m * width` of a row with `m` cells drawn draws `m + 1`. */
  lemma DrawnStep(row: seq<seq<bv8>>, width: nat, m: nat, w: nat)
    requires Uniform(row, width) && m < |row| && Times(|row|, width) <= w
    ensures Times(m, width) + width <= w
    ensures Memcpy(Drawn(row, m, w), Times(m, width), row[m]) == Drawn(row, m + 1, w)
  {
    DrawnLength(row, width, m, w);
    DrawnLength(row, width, m + 1, w);
    TimesSucc(m, width);
    FlattenSnoc(row, m);
    var drawn := Flatten(row[..m]);
    var rest := w - Times(m, width);
    assert Drawn(row, m, w) == drawn + Zeros(rest);
    assert Drawn(row, m + 1, w) == (drawn + row[m]) + Zeros(rest - width);
    MemcpyAfter(drawn, Zeros(rest), row[m]);
    assert Zeros(rest)[width..] == Zeros(rest - width);
  }

  /** Blank cells after the first `m` add nothing to a drawn row. */
  lemma {:induction false} DrawnBlank(row: seq<seq<bv8>>, width: nat, m: nat, w: nat)
    requires Uniform(row, width) && m <= |row| && Times(|row|, width) <= w
    requires forall c :: m <= c < |row| ==> row[c] == Zeros(width)
    ensures Drawn(row, m, w) == Drawn(row, |row|, w)
    decreases |row| - m
  {
    if m < |row| {
      DrawnLength(row, width, m, w);
      DrawnLength(row, width, m + 1, w);
      FlattenSnoc(row, m);
      var drawn := Flatten(row[..m]);
      ZerosConcat(width, w - Times(m + 1, width));
      assert Drawn(row, m + 1, w) == drawn + Zeros(width) + Zeros(w - Times(m + 1, width));
      DrawnBlank(row, width, m + 1, w);
    }
  }

  // ---------------------------------------------------------------------
  // Drawing the whole raster.

  lemma {:induction false} RowsLength(cells: seq<seq<seq<bv8>>>, n: nat, width: nat, m: nat, w: nat, lo: nat, hi: nat)
    requires Grid(cells, n, width) && Times(n, width) <= w && m <= n && lo <= hi <= |cells|
    ensures |Rows(cells, n, m, w, lo, hi)| == Times(hi - lo, w)
    decreases hi
  {
    if hi > lo {
      RowsLength(cells, n, width, m, w, lo, hi - 1);
      DrawnLength(cells[hi - 1], width, m, w);
      TimesSucc(hi - 1 - lo, w);
    }
  }

  /** The first raster row of a range followed by the rest. */
  lemma {:induction false} RowsFront(cells: seq<seq<seq<bv8>>>, n: nat, m: nat, w: nat, lo: nat, hi: nat)
    requires Rect(cells, n) && m <= n && lo < hi <= |cells|
    ensures Rows(cells, n, m, w, lo, hi) == Drawn(cells[lo], m, w) + Rows(cells, n, m, w, lo + 1, hi)
    decreases hi
  {
    if hi > lo + 1 {
      RowsFront(cells, n, m, w, lo, hi - 1);
      var first, middle, last := Drawn(cells[lo], m, w), Rows(cells, n, m, w, lo + 1, hi - 1), Drawn(cells[hi - 1], m, w);
      assert Rows(cells, n, m, w, lo, hi) == (first + middle) + last;
      assert Rows(cells, n, m, w, lo + 1, hi) == middle + last;
    }
  }

  /** With no cell drawn every raster row is zeros. */
  lemma {:induction false} RowsClear(cells: seq<seq<seq<bv8>>>, n: nat, w: nat, hi: nat)
    requires Rect(cells, n) && hi <= |cells|
    ensures Rows(cells, n, 0, w, 0, hi) == Zeros(Times(hi, w))
    decreases hi
  {
    if hi > 0 {
      RowsClear(cells, n, w, hi - 1);
      assert cells[hi - 1][..0] == [];
      ZerosConcat(Times(hi - 1, w), w);
    }
  }

  /** A cleared buffer is the raster with no cell drawn. */
  lemma FilledClear(cells: seq<seq<seq<bv8>>>, n: nat, w: nat)
    requires Rect(cells, n)
    ensures Filled(cells, n, 0, w) == Zeros(Times(|cells|, w))
  {
    RowsClear(cells, n, w, |cells|);
  }

  /** Blank cells after the first `m` of every row leave the raster as if all were drawn. */
  lemma {:induction false} RowsBlank(cells: seq<seq<seq<bv8>>>, n: nat, width: nat, m: nat, w: nat, hi: nat)
    requires Grid(cells, n, width) && Times(n, width) <= w && m <= n && hi <= |cells|
    requires forall r, c :: 0 <= r < |cells| && m <= c < n ==> cells[r][c] == Zeros(width)
    ensures Rows(cells, n, m, w, 0, hi) == Rows(cells, n, n, w, 0, hi)
    decreases hi
  {
    if hi > 0 {
      RowsBlank(cells, n, width, m, w, hi - 1);
      DrawnBlank(cells[hi - 1], width, m, w);
    }
  }

  lemma FilledBlank(cells: seq<seq<seq<bv8>>>, n: nat, width: nat, m: nat, w: nat)
    requires Grid(cells, n, width) && Times(n, width) <= w && m <= n
    requires forall r, c :: 0 <= r < |cells| && m <= c < n ==> cells[r][c] == Zeros(width)
    ensures Filled(cells, n, m, w) == Filled(cells, n, n, w)
  {
    RowsBlank(cells, n, width, m, w, |cells|);
  }

  /** Drawing cell `m` of row `k` is one `memcpy` at byte `k * w + m * width` of the buffer. */
  lemma CopyCell(cells: seq<seq<seq<bv8>>>, n: nat, width: nat, w: nat, m: nat, k: nat)
    requires Grid(cells, n, width) && Times(n, width) <= w && m < n && k < |cells|
    ensures |cells[k][m]| == width
    ensures Times(k, w) + Times(m, width) + width <= |InProgress(cells, n, m, k, w)|
    ensures Memcpy(InProgress(cells, n, m, k, w), Times(k, w) + Times(m, width), cells[k][m])
         == InProgress(cells, n, m, k + 1, w)
  {
    var done := Rows(cells, n, m + 1, w, 0, k);
    var rest := Rows(cells, n, m, w, k + 1, |cells|);
    RowsLength(cells, n, width, m + 1, w, 0, k);
    RowsFront(cells, n, m, w, k, |cells|);
    DrawnStep(cells[k], width, m, w);
    DrawnLength(cells[k], width, m, w);
    MemcpyMiddle(done, Drawn(cells[k], m, w), rest, Times(m, width), cells[k][m]);
    assert InProgress(cells, n, m, k, w) == done + Drawn(cells[k], m, w) + rest;
    assert InProgress(cells, n, m, k + 1, w) == done + Drawn(cells[k], m + 1, w) + rest;
  }

  /**
   The loop over image rows: `memcpy` row `k` of `image` to byte
   `k * w + m * width` of the buffer, for each of the `rows` rows. When those rows are
   cell `m` of the raster rows, the buffer goes from `m` cells drawn per
   row to `m + 1`.
   */
  method DrawColumn(ghost cells: seq<seq<seq<bv8>>>, ghost n: nat, rows: nat, width: nat, w: nat, m: nat,
                    image: seq<bv8>, buffer: seq<bv8>)
    returns (buffer': seq<bv8>)
    requires Grid(cells, n, width) && Times(n, width) <= w && m < n && |cells| == rows
    requires ColumnOf(cells, n, m, image, width)
    requires buffer == Filled(cells, n, m, w)
    ensures buffer' == Filled(cells, n, m + 1, w)
  {
    buffer' := buffer;
    assert InProgress(cells, n, m, 0, w) == Filled(cells, n, m, w);
    var k: nat := 0;
    while k < rows
      invariant k <= rows
      invariant buffer' == InProgress(cells, n, m, k, w)
    {
      var cell := image[Times(k, width) .. Times(k, width) + width];
      CopyCell(cells, n, width, w, m, k);
      buffer' := Memcpy(buffer', Times(k, w) + Times(m, width), cell);
      k := k + 1;
    }
    assert InProgress(cells, n, m, |cells|, w) == Filled(cells, n, m + 1, w);
  }
}
