/**
 * `handle_input` as its authors evidently intended it: the block size
 * BSIZE + 1 is computed at full width (a BGZF block may be 65536 bytes long,
 * SAM/BAM format specification, section 4.1), and a block that would run
 * past the buffer is refused while indexing, which is what the `todo` at
 * source line 92 asks for, so a malformed container produces no output at all.
 * The lemmas at the end exhibit where the code as written departs from this.
 */
module CheckedIndexer {
  import opened Bytes
  import opened Results
  import opened HeaderParser
  import opened BlockIndexer

  /** Indexing from `off` with full-width sizes and the bounds check. */
  function IndexCheckedFrom(buf: seq<u8>, off: nat): Result<seq<BgzfBlockPos>, InputError>
    decreases |buf| - off
  {
    if off >= |buf| then Ok([])
    else
      var hdr := ParseHeader(buf[off..]);
      if hdr.Err? then Err(HeaderFailed(hdr.error))
      else
        var size := hdr.value.bsize + 1;
        if off + size > |buf| then Err(BlockExceedsBuffer)
        else Prepend([BgzfBlockPos(off, size)], IndexCheckedFrom(buf, off + size))
  }

  function IndexChecked(buf: seq<u8>): Result<seq<BgzfBlockPos>, InputError>
  {
    IndexCheckedFrom(buf, 0)
  }

  /** The last block of a non-empty list ends exactly at the end of the buffer. */
  ghost predicate EndsAtBufferEnd(buf: seq<u8>, ps: seq<BgzfBlockPos>)
  {
    ps != [] ==> End(ps[|ps| - 1]) == |buf|
  }

  /**
   * A successful checked index is a chain from `off` whose last block ends
   * exactly at the end of the buffer.
   */
  lemma {:induction false} IndexCheckedFromTiles(buf: seq<u8>, off: nat)
    decreases |buf| - off
    ensures IndexCheckedFrom(buf, off).Ok? ==>
      ChainedFrom(buf, IndexCheckedFrom(buf, off).value, off) && EndsAtBufferEnd(buf, IndexCheckedFrom(buf, off).value)
  {
    if off < |buf| {
      var hdr := ParseHeader(buf[off..]);
      if hdr.Ok? && off + hdr.value.bsize + 1 <= |buf| {
        var size := hdr.value.bsize + 1;
        IndexCheckedFromTiles(buf, off + size);
        var r := IndexCheckedFrom(buf, off + size);
        if r.Ok? {
          var p := BgzfBlockPos(off, size);
          var ps := [p] + r.value;
          assert IndexCheckedFrom(buf, off).value == ps;
          ChainCons(buf, p, r.value);
          assert ps[|ps| - 1] == if r.value == [] then p else r.value[|r.value| - 1];
        }
      }
    }
  }

  /** The checked indexing, too, records for each block the size its own header announces. */
  lemma {:induction false} IndexCheckedFromHeaders(buf: seq<u8>, off: nat)
    decreases |buf| - off
    ensures IndexCheckedFrom(buf, off).Ok? ==> HeadersAt(buf, IndexCheckedFrom(buf, off).value)
  {
    if off < |buf| {
      var hdr := ParseHeader(buf[off..]);
      if hdr.Ok? && off + hdr.value.bsize + 1 <= |buf| {
        var size := hdr.value.bsize + 1;
        IndexCheckedFromHeaders(buf, off + size);
        var r := IndexCheckedFrom(buf, off + size);
        if r.Ok? {
          var p := BgzfBlockPos(off, size);
          assert IndexCheckedFrom(buf, off).value == [p] + r.value;
          HeadersCons(buf, p, r.value);
        }
      }
    }
  }

  /**
   * Where the source's indexing succeeds with a last block that ends exactly
   * at the end of the buffer, the checked indexing yields the same blocks.
   */
  lemma {:induction false} CheckedAcceptsWellFormed(buf: seq<u8>, off: nat)
    decreases |buf| - off
    ensures IndexFrom(buf, off).Ok? && EndsAtBufferEnd(buf, IndexFrom(buf, off).value) ==>
      IndexCheckedFrom(buf, off) == IndexFrom(buf, off)
  {
    if off < |buf| {
      var hdr := ParseHeader(buf[off..]);
      if hdr.Ok? && hdr.value.bsize != MaxU16 {
        var size := hdr.value.bsize + 1;
        var r := IndexFrom(buf, off + size);
        if r.Ok? {
          var p := BgzfBlockPos(off, size);
          var ps := [p] + r.value;
          assert IndexFrom(buf, off).value == ps;
          if EndsAtBufferEnd(buf, ps) {
            IndexFromChains(buf, off);
            IndexFromChains(buf, off + size);
            assert ps[|ps| - 1] == if r.value == [] then p else r.value[|r.value| - 1];
            assert off + size <= |buf| by {
              if r.value != [] {
                assert r.value[0].offset == off + size && r.value[0].offset < |buf|;
              }
            }
            CheckedAcceptsWellFormed(buf, off + size);
          }
        }
      }
    }
  }

  /**
   * Conversely, where the checked indexing succeeds and no block is 65536
   * bytes long, the source's indexing yields the same blocks.
   */
  lemma {:induction false} WellFormedAcceptedAsWritten(buf: seq<u8>, off: nat)
    decreases |buf| - off
    ensures IndexCheckedFrom(buf, off).Ok? && SizesFitU16(IndexCheckedFrom(buf, off).value) ==>
      IndexFrom(buf, off) == IndexCheckedFrom(buf, off)
  {
    if off < |buf| {
      var hdr := ParseHeader(buf[off..]);
      if hdr.Ok? && off + hdr.value.bsize + 1 <= |buf| {
        var size := hdr.value.bsize + 1;
        var r := IndexCheckedFrom(buf, off + size);
        if r.Ok? {
          var ps := [BgzfBlockPos(off, size)] + r.value;
          assert IndexCheckedFrom(buf, off).value == ps;
          if SizesFitU16(ps) {
            assert ps[0].size == size;
            assert SizesFitU16(r.value) by {
              forall i | 0 <= i < |r.value| ensures 1 <= r.value[i].size <= MaxU16 {
                assert r.value[i] == ps[i + 1];
              }
            }
            WellFormedAcceptedAsWritten(buf, off + size);
          }
        }
      }
    }
  }

  /** The indexing loop with the bounds check the source leaves as a `todo`. */
  method IndexBlocksChecked(buf: seq<u8>) returns (r: Result<seq<BgzfBlockPos>, InputError>)
    ensures r == IndexChecked(buf)
    ensures r.Ok? ==> ChainedFrom(buf, r.value, 0) && EndsAtBufferEnd(buf, r.value) && HeadersAt(buf, r.value)
  {
    var positions: seq<BgzfBlockPos> := [];
    var off: nat := 0;
    assert Prepend(positions, IndexCheckedFrom(buf, off)) == IndexCheckedFrom(buf, off) by {
      if IndexCheckedFrom(buf, off).Ok? {
        assert [] + IndexCheckedFrom(buf, off).value == IndexCheckedFrom(buf, off).value;
      }
    }
    while off < |buf|
      invariant IndexChecked(buf) == Prepend(positions, IndexCheckedFrom(buf, off))
      decreases |buf| - off
    {
      ghost var touched: set<nat>;
      var hdr;
      hdr, touched := ParseBgzfHeader(buf[off..]);
      if hdr.Err? {
        return Err(HeaderFailed(hdr.error));
      }
      var size: nat := hdr.value.bsize + 1;
      if off + size > |buf| {
        return Err(BlockExceedsBuffer);
      }
      ghost var tail := IndexCheckedFrom(buf, off + size);
      assert tail.Ok? ==> positions + ([BgzfBlockPos(off, size)] + tail.value) == (positions + [BgzfBlockPos(off, size)]) + tail.value;
      positions := positions + [BgzfBlockPos(off, size)];
      off := off + size;
    }
    assert positions + [] == positions;
    IndexCheckedFromTiles(buf, 0);
    IndexCheckedFromHeaders(buf, 0);
    return Ok(positions);
  }

  /**
   * `handle_input` as intended: a malformed container fails before any span
   * reaches the decoder; a well-formed one hands over every block's bytes in
   * order, and together they are the whole buffer.
   */
  method HandleInputChecked(buf: seq<u8>) returns (spans: seq<seq<u8>>, r: Result<(), InputError>)
    ensures r.Ok? <==> IndexChecked(buf).Ok?
    ensures r.Err? ==> spans == [] && r.error == IndexChecked(buf).error
    ensures r.Ok? ==>
      var ps := IndexChecked(buf).value;
      && |spans| == |ps|
      && (forall i | 0 <= i < |ps| :: End(ps[i]) <= |buf| && spans[i] == buf[ps[i].offset .. End(ps[i])])
      && Flatten(spans) == buf
  {
    var index := IndexBlocksChecked(buf);
    if index.Err? {
      return [], Err(index.error);
    }
    spans, r := DispatchSpans(buf, index.value);
  }

  /**
   * A 65536-byte block, whose header carries the largest BSIZE, 65535: the
   * source's u16 `bsize + 1` cannot hold its size and indexing fails, while
   * the intended indexing records it as the single block of the buffer.
   */
  lemma MaxSizeBlockRejectedAsWritten(buf: seq<u8>)
    requires |buf| == MaxU16 + 1
    requires ParseHeader(buf) == Ok(BgzfHeader(MaxU16))
    ensures Index(buf) == Err(BlockSizeOverflow)
    ensures IndexChecked(buf) == Ok([BgzfBlockPos(0, MaxU16 + 1)])
  {
    assert buf[0..] == buf;
    assert IndexCheckedFrom(buf, MaxU16 + 1) == Ok([]);
    assert [BgzfBlockPos(0, MaxU16 + 1)] + [] == [BgzfBlockPos(0, MaxU16 + 1)];
  }

  /** A valid empty BGZF block (BSIZE 27) followed by a header announcing a 256-byte block in 18 bytes. */
  const OverrunExample: seq<u8> :=
    [31, 139, 8, 4, 0, 0, 0, 0, 0, 255, 6, 0, 66, 67, 2, 0, 27, 0, 3, 0, 0, 0, 0, 0, 0, 0, 0, 0]
    + [31, 139, 8, 4, 0, 0, 0, 0, 0, 255, 6, 0, 66, 67, 2, 0, 255, 0]

  /** The first header of `OverrunExample`, at offset 0, announces BSIZE 27. */
  lemma OverrunExampleFirstHeader()
    ensures ParseHeader(OverrunExample[0..]) == Ok(BgzfHeader(27))
  {
    var b := OverrunExample;
    assert b[0..] == b;
    assert b[0] == Id1 && b[1] == Id2 && b[2] == CmDeflate && b[3] == FlgFextra;
    assert Xlen(b) == 6;
    assert b[12] == Si1Bc && b[13] == Si2Bc && Le16(b[14], b[15]) == BcSlen;
    assert IsBcAt(b, 12);
    assert Le16(b[16], b[17]) == 27;
    assert WalkExtra(b, 12, 18) == Ok(27);
  }

  /** The second header of `OverrunExample`, at offset 28, announces BSIZE 255. */
  lemma OverrunExampleSecondHeader()
    ensures ParseHeader(OverrunExample[28..]) == Ok(BgzfHeader(255))
  {
    var second := OverrunExample[28..];
    assert second == [31, 139, 8, 4, 0, 0, 0, 0, 0, 255, 6, 0, 66, 67, 2, 0, 255, 0];
    assert second[0] == Id1 && second[1] == Id2 && second[2] == CmDeflate && second[3] == FlgFextra;
    assert Xlen(second) == 6;
    assert second[12] == Si1Bc && second[13] == Si2Bc && Le16(second[14], second[15]) == BcSlen;
    assert IsBcAt(second, 12);
    assert Le16(second[16], second[17]) == 255;
    assert WalkExtra(second, 12, 18) == Ok(255);
  }

  /**
   * The source indexes `OverrunExample` into two blocks although the second
   * runs 238 bytes past the end, so `HandleInput` decodes the first block
   * and only then fails; the intended indexing refuses the buffer outright.
   */
  lemma OverrunAcceptedAsWritten()
    ensures Index(OverrunExample) == Ok([BgzfBlockPos(0, 28), BgzfBlockPos(28, 256)])
    ensures End(BgzfBlockPos(28, 256)) > |OverrunExample|
    ensures IndexChecked(OverrunExample) == Err(BlockExceedsBuffer)
  {
    var b := OverrunExample;
    OverrunExampleFirstHeader();
    OverrunExampleSecondHeader();
    assert IndexFrom(b, 284) == Ok([]);
    assert [BgzfBlockPos(28, 256)] + [] == [BgzfBlockPos(28, 256)];
    assert IndexFrom(b, 28) == Ok([BgzfBlockPos(28, 256)]);
    assert [BgzfBlockPos(0, 28)] + [BgzfBlockPos(28, 256)] == [BgzfBlockPos(0, 28), BgzfBlockPos(28, 256)];
    assert IndexCheckedFrom(b, 28) == Err(BlockExceedsBuffer);
  }
}
