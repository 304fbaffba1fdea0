/**
 * `handle_input` as written: a loop that tiles the buffer into BGZF blocks
 * by parsing a header at each offset and advancing by BSIZE + 1, followed by
 * a loop that hands each block's span to the decoder in index order.
 *
 * Two points of the source are modelled as explicit failures rather than
 * panics: `hdr.bsize + 1` is u16 arithmetic and overflows when BSIZE = 65535
 * (`BlockSizeOverflow`), and no check keeps a block inside the buffer, so an
 * overrunning block is only caught when its span is sliced for the decoder
 * (`SliceOutOfBounds`), after every earlier span has been decoded.
 */
module BlockIndexer {
  import opened Bytes
  import opened Results
  import opened HeaderParser

  const MaxU16: nat := 0xFFFF

  /** One BGZF member: where it starts in the buffer and its total length. */
  datatype BgzfBlockPos = BgzfBlockPos(offset: nat, size: nat)

  datatype InputError =
    | HeaderFailed(e: HeaderError)
    | BlockSizeOverflow
    | SliceOutOfBounds
    | BlockExceedsBuffer

  function End(p: BgzfBlockPos): nat
  {
    p.offset + p.size
  }

  /** The bytes of the spans in order, one after the other. */
  function Flatten(spans: seq<seq<u8>>): seq<u8>
  {
    if spans == [] then [] else Flatten(spans[..|spans| - 1]) + spans[|spans| - 1]
  }

  /** A result list with `done` put in front of it; errors pass through unchanged. */
  function Prepend(done: seq<BgzfBlockPos>, r: Result<seq<BgzfBlockPos>, InputError>): Result<seq<BgzfBlockPos>, InputError>
  {
    if r.Ok? then Ok(done + r.value) else r
  }

  /** The header at `p.offset` parses, and `p.size` is its BSIZE plus one. */
  predicate HeaderAt(buf: seq<u8>, p: BgzfBlockPos)
    requires p.offset <= |buf|
  {
    var hdr := ParseHeader(buf[p.offset..]);
    hdr.Ok? && p.size == hdr.value.bsize + 1
  }

  /**
   * `ps` is a chain of blocks from `off`: each starts where the one before
   * ends, each starts inside the buffer and is at least one byte long, and
   * the last one reaches the end of the buffer or beyond (an empty chain
   * starts there).
   */
  ghost predicate ChainedFrom(buf: seq<u8>, ps: seq<BgzfBlockPos>, off: nat)
  {
    && (forall i | 0 <= i < |ps| :: ps[i].offset < |buf| && ps[i].size >= 1)
    && (ps == [] ==> off >= |buf|)
    && (ps != [] ==> ps[0].offset == off && End(ps[|ps| - 1]) >= |buf|)
    && (forall i | 0 <= i < |ps| - 1 :: ps[i + 1].offset == End(ps[i]))
  }

  /** The indexing loop of `handle_input` from offset `off` on. */
  function IndexFrom(buf: seq<u8>, off: nat): Result<seq<BgzfBlockPos>, InputError>
    decreases |buf| - off
  {
    if off >= |buf| then Ok([])
    else
      var hdr := ParseHeader(buf[off..]);
      if hdr.Err? then Err(HeaderFailed(hdr.error))
      else if hdr.value.bsize == MaxU16 then Err(BlockSizeOverflow)
      else
        var size := hdr.value.bsize + 1;
        Prepend([BgzfBlockPos(off, size)], IndexFrom(buf, off + size))
  }

  function Index(buf: seq<u8>): Result<seq<BgzfBlockPos>, InputError>
  {
    IndexFrom(buf, 0)
  }

  /** Sizes of a chain of blocks as the source stores them: 1 to 65535. */
  ghost predicate SizesFitU16(ps: seq<BgzfBlockPos>)
  {
    forall i | 0 <= i < |ps| :: 1 <= ps[i].size <= MaxU16
  }

  /** One more block in front of a chain that starts where it ends. */
  lemma ChainCons(buf: seq<u8>, p: BgzfBlockPos, rest: seq<BgzfBlockPos>)
    requires p.offset < |buf| && p.size >= 1
    requires ChainedFrom(buf, rest, End(p)) && (rest == [] <==> End(p) >= |buf|)
    ensures ChainedFrom(buf, [p] + rest, p.offset)
  {
    var ps := [p] + rest;
    forall i | 0 <= i < |ps|
      ensures ps[i].offset < |buf| && ps[i].size >= 1
    {
      if i > 0 {
        assert ps[i] == rest[i - 1];
      }
    }
    forall i | 0 <= i < |ps| - 1
      ensures ps[i + 1].offset == End(ps[i])
    {
      if i > 0 {
        assert ps[i] == rest[i - 1] && ps[i + 1] == rest[i];
      }
    }
    assert ps[|ps| - 1] == if rest == [] then p else rest[|rest| - 1];
  }

  /**
   * What indexing from `off` yields: nothing exactly when `off` is at or past
   * the end, otherwise a chain of blocks from `off` whose sizes fit in a u16.
   */
  lemma {:induction false} IndexFromChains(buf: seq<u8>, off: nat)
    decreases |buf| - off
    ensures IndexFrom(buf, off).Ok? ==>
      var ps := IndexFrom(buf, off).value;
      ChainedFrom(buf, ps, off) && (ps == [] <==> off >= |buf|) && SizesFitU16(ps)
  {
    if off < |buf| {
      var hdr := ParseHeader(buf[off..]);
      if hdr.Ok? && hdr.value.bsize != MaxU16 {
        var size := hdr.value.bsize + 1;
        IndexFromChains(buf, off + size);
        var r := IndexFrom(buf, off + size);
        if r.Ok? {
          var p := BgzfBlockPos(off, size);
          assert IndexFrom(buf, off).value == [p] + r.value;
          ChainCons(buf, p, r.value);
          assert SizesFitU16([p] + r.value) by {
            forall i | 1 <= i < |r.value| + 1 ensures ([p] + r.value)[i] == r.value[i - 1] { }
          }
        }
      }
    }
  }

  /** Every block of `ps` starts at a header that parses, and its size is that header's BSIZE + 1. */
  ghost predicate HeadersAt(buf: seq<u8>, ps: seq<BgzfBlockPos>)
  {
    forall i | 0 <= i < |ps| :: ps[i].offset <= |buf| && HeaderAt(buf, ps[i])
  }

  lemma HeadersCons(buf: seq<u8>, p: BgzfBlockPos, rest: seq<BgzfBlockPos>)
    requires p.offset <= |buf| && HeaderAt(buf, p) && HeadersAt(buf, rest)
    ensures HeadersAt(buf, [p] + rest)
  {
    var ps := [p] + rest;
    forall i | 0 <= i < |ps| ensures ps[i].offset <= |buf| && HeaderAt(buf, ps[i]) {
      if i > 0 {
        assert ps[i] == rest[i - 1];
      }
    }
  }

  /** Indexing records, for each block, the size its own header announces. */
  lemma {:induction false} IndexFromHeaders(buf: seq<u8>, off: nat)
    decreases |buf| - off
    ensures IndexFrom(buf, off).Ok? ==> HeadersAt(buf, IndexFrom(buf, off).value)
  {
    if off < |buf| {
      var hdr := ParseHeader(buf[off..]);
      if hdr.Ok? && hdr.value.bsize != MaxU16 {
        var size := hdr.value.bsize + 1;
        IndexFromHeaders(buf, off + size);
        var r := IndexFrom(buf, off + size);
        if r.Ok? {
          var p := BgzfBlockPos(off, size);
          var ps := [p] + r.value;
          assert IndexFrom(buf, off).value == ps;
          HeadersCons(buf, p, r.value);
        }
      }
    }
  }

  /** Offsets of a chain strictly increase with the index. */
  lemma {:induction false} ChainIncreasing(buf: seq<u8>, ps: seq<BgzfBlockPos>, off: nat, i: nat, j: nat)
    requires ChainedFrom(buf, ps, off)
    requires i < j < |ps|
    decreases j - i
    ensures ps[i].offset < ps[j].offset
  {
    if i + 1 < j {
      ChainIncreasing(buf, ps, off, i + 1, j);
    }
  }

  /**
   * On success, the blocks start at offset 0, follow each other without gap
   * or overlap, start inside the buffer, and only the last may reach its end.
   */
  lemma IndexTiles(buf: seq<u8>)
    ensures Index(buf).Ok? ==>
      var ps := Index(buf).value;
      && (ps == [] <==> |buf| == 0)
      && ChainedFrom(buf, ps, 0)
      && (forall i, j | 0 <= i < j < |ps| :: ps[i].offset < ps[j].offset)
      && (forall i | 0 <= i < |ps| - 1 :: End(ps[i]) < |buf|)
  {
    IndexFromChains(buf, 0);
    if Index(buf).Ok? {
      var ps := Index(buf).value;
      forall i, j | 0 <= i < j < |ps| ensures ps[i].offset < ps[j].offset {
        ChainIncreasing(buf, ps, 0, i, j);
      }
      forall i | 0 <= i < |ps| - 1 ensures End(ps[i]) < |buf| {
        assert ps[i + 1].offset == End(ps[i]);
      }
    }
  }

  /** The indexing loop of `handle_input` (source lines 87-98). */
  method IndexBlocks(buf: seq<u8>) returns (r: Result<seq<BgzfBlockPos>, InputError>)
    ensures r == Index(buf)
    ensures r.Ok? ==> ChainedFrom(buf, r.value, 0) && SizesFitU16(r.value)
  {
    var positions: seq<BgzfBlockPos> := [];
    var off: nat := 0;
    assert Prepend(positions, IndexFrom(buf, off)) == IndexFrom(buf, off) by {
      if IndexFrom(buf, off).Ok? {
        assert [] + IndexFrom(buf, off).value == IndexFrom(buf, off).value;
      }
    }
    while off < |buf|
      invariant Index(buf) == Prepend(positions, IndexFrom(buf, off))
      decreases |buf| - off
    {
      ghost var touched: set<nat>;
      var hdr;
      hdr, touched := ParseBgzfHeader(buf[off..]);
      if hdr.Err? {
        return Err(HeaderFailed(hdr.error));
      }
      if hdr.value.bsize == MaxU16 {
        // `hdr.bsize + 1` on u16 cannot represent 65536
        return Err(BlockSizeOverflow);
      }
      var bsize := hdr.value.bsize + 1;
      ghost var tail := IndexFrom(buf, off + bsize);
      assert tail.Ok? ==> positions + ([BgzfBlockPos(off, bsize)] + tail.value) == (positions + [BgzfBlockPos(off, bsize)]) + tail.value;
      positions := positions + [BgzfBlockPos(off, bsize)];
      off := off + bsize;
    }
    assert positions + [] == positions;
    IndexFromChains(buf, 0);
    return Ok(positions);
  }

  /**
   * The dispatch loop of `handle_input` (source lines 100-104): hands the
   * span of each block of a chain to the decoder in index order; `spans`
   * lists the spans handed over. Every span is the block's bytes, and they
   * concatenate to the buffer's prefix they cover. Only the last block can
   * overrun the buffer; slicing it fails after every earlier span was decoded.
   */
  method DispatchSpans(buf: seq<u8>, ps: seq<BgzfBlockPos>) returns (spans: seq<seq<u8>>, r: Result<(), InputError>)
    requires ChainedFrom(buf, ps, 0)
    ensures r.Ok? <==> ps == [] || End(ps[|ps| - 1]) == |buf|
    ensures |spans| == (if r.Ok? then |ps| else |ps| - 1)
    ensures forall i | 0 <= i < |spans| :: End(ps[i]) <= |buf| && spans[i] == buf[ps[i].offset .. End(ps[i])]
    ensures r.Ok? ==> Flatten(spans) == buf
    ensures r.Err? ==> r.error == SliceOutOfBounds && Flatten(spans) == buf[..ps[|ps| - 1].offset]
  {
    spans := [];
    for i := 0 to |ps|
      invariant |spans| == i
      invariant forall k | 0 <= k < i :: End(ps[k]) <= |buf| && spans[k] == buf[ps[k].offset .. End(ps[k])]
      invariant Flatten(spans) == buf[..if i == 0 then 0 else End(ps[i - 1])]
    {
      var start := ps[i].offset;
      var end := start + ps[i].size;
      assert i < |ps| - 1 ==> ps[i + 1].offset == end;
      assert i > 0 ==> End(ps[i - 1]) == start;
      if end > |buf| {
        // slicing `&buf[start..end]` panics here
        return spans, Err(SliceOutOfBounds);
      }
      assert buf[..end] == buf[..start] + buf[start .. end];
      spans := spans + [buf[start .. end]];
    }
    assert ps != [] ==> End(ps[|ps| - 1]) == |buf|;
    assert buf[..|buf|] == buf;
    r := Ok(());
  }

  /**
   * `handle_input`: index the buffer, then hand each block's span to the
   * decoder in index order. An indexing error stops the run before any span
   * is decoded; otherwise the run is the dispatch of the indexed chain.
   */
  method HandleInput(buf: seq<u8>) returns (spans: seq<seq<u8>>, r: Result<(), InputError>)
    ensures Index(buf).Err? ==> spans == [] && r == Err(Index(buf).error)
    ensures Index(buf).Ok? ==>
      var ps := Index(buf).value;
      && (r.Ok? <==> ps == [] || End(ps[|ps| - 1]) == |buf|)
      && |spans| == (if r.Ok? then |ps| else |ps| - 1)
      && (forall i | 0 <= i < |spans| :: End(ps[i]) <= |buf| && spans[i] == buf[ps[i].offset .. End(ps[i])])
      && (r.Ok? ==> Flatten(spans) == buf)
      && (r.Err? ==> r.error == SliceOutOfBounds && ps[|ps| - 1].offset < |buf| && Flatten(spans) == buf[..ps[|ps| - 1].offset])
  {
    var index := IndexBlocks(buf);
    if index.Err? {
      return [], Err(index.error);
    }
    spans, r := DispatchSpans(buf, index.value);
  }
}
