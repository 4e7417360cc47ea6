/** A flat slice read as a row-major matrix, and the tiled transpose of solomon-zk/src/ntt.rs. */
module MatrixLayout {
  import opened Congruence
  import opened Goldilocks

  /** The entry in row r and column c of a row-major matrix with rows of length width. */
  ghost function Entry(x: seq<Felt>, width: nat, r: nat, c: nat): Felt
  {
    var i := r * width + c;
    if i < |x| then x[i] else 0
  }

  ghost function Row(x: seq<Felt>, width: nat, r: nat): (s: seq<Felt>)
    ensures |s| == width
    ensures forall c | 0 <= c < width :: s[c] == Entry(x, width, r, c)
  {
    seq(width, c requires 0 <= c < width => Entry(x, width, r, c))
  }

  ghost function Column(x: seq<Felt>, width: nat, height: nat, c: nat): (s: seq<Felt>)
    ensures |s| == height
    ensures forall r | 0 <= r < height :: s[r] == Entry(x, width, r, c)
  {
    seq(height, r requires 0 <= r < height => Entry(x, width, r, c))
  }

  lemma InBounds(r: nat, c: nat, height: nat, width: nat)
    requires r < height && c < width
    ensures 0 <= r * width + c < height * width
    ensures (r + 1) * width == r * width + width <= height * width
  {
    assert (r + 1) * width <= height * width;
  }

  lemma SameCell(r: nat, c: nat, r': nat, c': nat, width: nat)
    requires c < width && c' < width && r * width + c == r' * width + c'
    ensures r == r' && c == c'
  {
    DivModUnique(r * width + c, r, c, width);
    DivModUnique(r * width + c, r', c', width);
  }

  /** Matrices of one shape with equal entries are equal. */
  lemma EntriesDetermine(x: seq<Felt>, y: seq<Felt>, height: nat, width: nat)
    requires |x| == |y| == height * width
    requires forall r, c | 0 <= r < height && 0 <= c < width :: Entry(x, width, r, c) == Entry(y, width, r, c)
    ensures x == y
  {
    forall i | 0 <= i < |x|
      ensures x[i] == y[i]
    {
      assert width > 0 by { assert width == 0 ==> height * width == 0; }
      var r, c := i / width, i % width;
      assert i == r * width + c;
      assert r < height by { assert r >= height ==> r * width >= height * width; }
      assert Entry(x, width, r, c) == Entry(y, width, r, c);
    }
  }

  lemma RowIsSlice(x: seq<Felt>, height: nat, width: nat, r: nat)
    requires |x| == height * width && r < height
    ensures 0 <= r * width <= r * width + width <= |x|
    ensures Row(x, width, r) == x[r * width..r * width + width]
  {
    assert (r + 1) * width == r * width + width <= height * width;
    forall c | 0 <= c < width
      ensures Row(x, width, r)[c] == x[r * width..r * width + width][c]
    {
      InBounds(r, c, height, width);
    }
  }

  // ----- transposition

  /** dst is the transpose of src (height x width) on the cells that satisfy the bounds. */
  ghost predicate TransposedOn(src: seq<Felt>, dst: seq<Felt>, height: nat, width: nat,
                               r0: nat, r1: nat, c0: nat, c1: nat)
  {
    forall r, c {:trigger Entry(dst, height, c, r)} |
      0 <= r < height && 0 <= c < width && r0 <= r < r1 && c0 <= c < c1 ::
      Entry(dst, height, c, r) == Entry(src, width, r, c)
  }

  /** Cells outside the tile r0..r1 x c0..c1 hold what they held. */
  ghost predicate KeptOutside(was: seq<Felt>, dst: seq<Felt>, height: nat, width: nat,
                              r0: nat, r1: nat, c0: nat, c1: nat)
  {
    forall r, c {:trigger Entry(dst, height, c, r)} |
      0 <= r < height && 0 <= c < width && !(r0 <= r < r1 && c0 <= c < c1) ::
      Entry(dst, height, c, r) == Entry(was, height, c, r)
  }

  ghost predicate Transposed(src: seq<Felt>, dst: seq<Felt>, height: nat, width: nat)
  {
    TransposedOn(src, dst, height, width, 0, height, 0, width)
  }

  lemma StoredCell(was: seq<Felt>, dst: seq<Felt>, src: seq<Felt>, height: nat, width: nat, r: nat, c: nat)
    requires |was| == |src| == height * width && r < height && c < width
    requires c * height + r < |was| && r * width + c < |src|
    requires dst == was[c * height + r := src[r * width + c]]
    ensures Entry(dst, height, c, r) == Entry(src, width, r, c)
    ensures KeptOutside(was, dst, height, width, r, r + 1, c, c + 1)
  {
    forall r', c' {:trigger Entry(dst, height, c', r')} |
      0 <= r' < height && 0 <= c' < width && !(r' == r && c' == c)
      ensures Entry(dst, height, c', r') == Entry(was, height, c', r')
    {
      if c' * height + r' == c * height + r { SameCell(c', r', c, r, height); }
    }
  }

  method TransposeRow(src: array<Felt>, dst: array<Felt>, height: nat, width: nat,
                      r: nat, c0: nat, c1: nat)
    requires src != dst && src.Length == dst.Length == height * width
    requires r < height && c0 <= c1 <= width
    modifies dst
    ensures TransposedOn(src[..], dst[..], height, width, r, r + 1, c0, c1)
    ensures KeptOutside(old(dst[..]), dst[..], height, width, r, r + 1, c0, c1)
  {
    hide Entry;
    ghost var s, was := src[..], dst[..];
    for c := c0 to c1
      invariant src[..] == s
      invariant TransposedOn(s, dst[..], height, width, r, r + 1, c0, c)
      invariant KeptOutside(was, dst[..], height, width, r, r + 1, c0, c)
    {
      InBounds(r, c, height, width);
      InBounds(c, r, width, height);
      assert width * height == height * width;
      ghost var y := dst[..];
      dst[c * height + r] := src[r * width + c];
      StoredCell(y, dst[..], s, height, width, r, c);
    }
  }

  method TransposeTile(src: array<Felt>, dst: array<Felt>, height: nat, width: nat,
                       r0: nat, r1: nat, c0: nat, c1: nat)
    requires src != dst && src.Length == dst.Length == height * width
    requires r0 <= r1 <= height && c0 <= c1 <= width
    modifies dst
    ensures TransposedOn(src[..], dst[..], height, width, r0, r1, c0, c1)
    ensures KeptOutside(old(dst[..]), dst[..], height, width, r0, r1, c0, c1)
  {
    hide Entry;
    ghost var s, was := src[..], dst[..];
    for r := r0 to r1
      invariant src[..] == s
      invariant TransposedOn(s, dst[..], height, width, r0, r, c0, c1)
      invariant KeptOutside(was, dst[..], height, width, r0, r, c0, c1)
    {
      TransposeRow(src, dst, height, width, r, c0, c1);
    }
  }

  const BLOCK_SIZE := 64

  function Min(a: nat, b: nat): nat { if a < b then a else b }

  /** matrix_transpose: tile by tile, 64 x 64 cells, clipped at the edges. */
  method MatrixTranspose(src: array<Felt>, dst: array<Felt>, height: nat, width: nat)
    requires src != dst && src.Length == dst.Length == height * width
    modifies dst
    ensures Transposed(src[..], dst[..], height, width)
  {
    hide Entry;
    ghost var s := src[..];
    var rBlock := 0;
    while rBlock < height
      invariant src[..] == s
      invariant TransposedOn(s, dst[..], height, width, 0, Min(rBlock, height), 0, width)
      decreases height - rBlock
    {
      var rEnd := Min(rBlock + BLOCK_SIZE, height);
      var cBlock := 0;
      ghost var was := dst[..];
      while cBlock < width
        invariant src[..] == s
        invariant TransposedOn(s, dst[..], height, width, rBlock, rEnd, 0, Min(cBlock, width))
        invariant KeptOutside(was, dst[..], height, width, rBlock, rEnd, 0, Min(cBlock, width))
        decreases width - cBlock
      {
        var cEnd := Min(cBlock + BLOCK_SIZE, width);
        TransposeTile(src, dst, height, width, rBlock, rEnd, cBlock, cEnd);
        cBlock := cBlock + BLOCK_SIZE;
      }
      rBlock := rBlock + BLOCK_SIZE;
    }
  }
}
