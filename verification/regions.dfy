/** The two C variants' region scan and super-block de-duplication. Both
    files contain the same loops; they differ only in the factor that packs a
    super-block into one integer id (10 in qr_txt_generator.c, 100 in qr.c). */
module RegionScan {
  import opened QrBoard

  /** Size of the fixed region and id buffers (TAMANHO_TABULEIRO squared). */
  const BufferSize: int := 144

  /** The double loop over block corners (l, c) in [0, 10] x [0, 10] that
      records every block matching p. A match is stored only while the
      buffer has room; that guard never fires, since at most 121 blocks
      exist. */
  method ScanPattern(b: Board, p: Pattern) returns (regions: seq<Coord>)
    ensures IsScanOf(b, p, regions)
    ensures |regions| <= (Size - 1) * (Size - 1)
  {
    regions := [];
    var l := 0;
    while l < Size - 1
      invariant 0 <= l <= Size - 1
      invariant forall m :: m in regions <==> InBlockRange(m) && m.0 < l && Matches(b, p, m.0, m.1)
      invariant RowMajor(regions)
      invariant forall m :: m in regions ==> Key(m) < l * 12
      invariant |regions| <= l * 11
    {
      var c := 0;
      while c < Size - 1
        invariant 0 <= c <= Size - 1
        invariant forall m :: m in regions <==>
          InBlockRange(m) && (m.0 < l || (m.0 == l && m.1 < c)) && Matches(b, p, m.0, m.1)
        invariant RowMajor(regions)
        invariant forall m :: m in regions ==> Key(m) < l * 12 + c
        invariant |regions| <= l * 11 + c
      {
        if Matches(b, p, l, c) {
          if |regions| < BufferSize {
            regions := regions + [(l, c)];
          }
        }
        c := c + 1;
      }
      l := l + 1;
    }
  }

  /** Packs super-block coordinates into one integer, as the sources do. */
  function PackId(s: Coord, factor: int): int
  {
    s.0 * factor + s.1
  }

  /** The id a source computes for the region whose corner is m. */
  function BlockId(m: Coord, factor: int): int
  {
    PackId(SuperBlock(m), factor)
  }

  /** Super-blocks of in-range corners have coordinates in [0, 3]. */
  predicate SmallBlock(s: Coord)
  {
    0 <= s.0 <= 3 && 0 <= s.1 <= 3
  }

  /** With a factor above 3, different super-blocks get different ids; so
      (l/3)*10 + c/3 and (l/3)*100 + c/3 both identify the super-block. */
  lemma BlockIdInjective(s: Coord, t: Coord, factor: int)
    requires SmallBlock(s) && SmallBlock(t) && factor > 3
    ensures PackId(s, factor) == PackId(t, factor) <==> s == t
  {
  }

  /** An id list that packs a list of super-blocks: an id is in it exactly
      when its super-block is. */
  lemma IdLookup(seen: seq<int>, blocks: seq<Coord>, s: Coord, factor: int)
    requires |seen| == |blocks| && factor > 3 && SmallBlock(s)
    requires forall k :: 0 <= k < |blocks| ==> SmallBlock(blocks[k]) && seen[k] == PackId(blocks[k], factor)
    ensures PackId(s, factor) in seen <==> s in blocks
  {
    if PackId(s, factor) in seen {
      var k :| 0 <= k < |seen| && seen[k] == PackId(s, factor);
      BlockIdInjective(blocks[k], s, factor);
    }
    if s in blocks {
      var k :| 0 <= k < |blocks| && blocks[k] == s;
      assert seen[k] == PackId(s, factor);
    }
  }

  lemma SuperBlocksStep(rs: seq<Coord>, m: Coord, blocks: seq<Coord>)
    ensures (set x | x in rs + [m] :: SuperBlock(x)) == (set x | x in rs :: SuperBlock(x)) + {SuperBlock(m)}
    ensures Elems(blocks + [SuperBlock(m)]) == Elems(blocks) + {SuperBlock(m)}
  {
  }

  /** The loop that counts distinct super-block ids among the regions: each
      id is looked up in the ids seen so far and appended when new (while
      the buffer has room, which it always has). The count is the number of
      distinct super-blocks the regions fall in. */
  method CountDistinctBlocks(regions: seq<Coord>, factor: int) returns (count: int)
    requires |regions| <= BufferSize
    requires forall m :: m in regions ==> InBlockRange(m)
    requires factor > 3
    ensures count == |set m | m in regions :: SuperBlock(m)|
  {
    var seen: seq<int> := [];
    ghost var blocks: seq<Coord> := [];
    count := 0;
    var i := 0;
    while i < |regions|
      invariant 0 <= i <= |regions|
      invariant count == |seen| == |blocks| <= i
      invariant forall k :: 0 <= k < |blocks| ==> SmallBlock(blocks[k]) && seen[k] == PackId(blocks[k], factor)
      invariant NoRepeats(blocks)
      invariant Elems(blocks) == set m | m in regions[..i] :: SuperBlock(m)
    {
      var id := BlockId(regions[i], factor);
      ghost var s := SuperBlock(regions[i]);
      assert regions[i] in regions;
      var jaVisto := false;
      var j := 0;
      while j < count
        invariant 0 <= j <= count
        invariant !jaVisto
        invariant forall k :: 0 <= k < j ==> seen[k] != id
      {
        if seen[j] == id {
          jaVisto := true;
          break;
        }
        j := j + 1;
      }
      assert jaVisto <==> id in seen;
      IdLookup(seen, blocks, s, factor);
      assert regions[..i + 1] == regions[..i] + [regions[i]];
      SuperBlocksStep(regions[..i], regions[i], blocks);
      if !jaVisto {
        if count < BufferSize {
          seen := seen + [id];
          blocks := blocks + [s];
          count := count + 1;
        }
      }
      i := i + 1;
    }
    assert regions[..i] == regions;
    NoRepeatsSize(blocks);
  }
}
