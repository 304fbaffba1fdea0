/**
 * `parse_bgzf_header`: decodes the header of one gzip member (RFC 1952,
 * section 2.3) and walks its FEXTRA subfields (RFC 1952, section 2.3.1.1)
 * for the BGZF `BC` subfield (SAM/BAM format specification, section 4.1),
 * whose payload BSIZE is the total block size minus one.
 */
module HeaderParser {
  import opened Bytes
  import opened Results

  const MinHeaderSize: nat := 16
  /** ID1, ID2, CM, FLG, MTIME (4), XFL, OS and XLEN (2): the bytes before the extra field. */
  const ReqFieldsSize: nat := 12
  /** SI1, SI2 and SLEN (2): the bytes before a subfield's data. */
  const SubfieldMinSize: nat := 4

  const Id1: u8 := 31
  const Id2: u8 := 139
  const CmDeflate: u8 := 8
  const FlgFextra: u8 := 4
  const Si1Bc: u8 := 66  // 'B'
  const Si2Bc: u8 := 67  // 'C'
  const BcSlen: u16 := 2

  /** The distinct error exits of the parser, in the order it can take them. */
  datatype HeaderError =
    | InputTooSmall
    | BadMagic
    | BadCompressionMethod
    | BadFlags
    | ExtraFieldOutOfBounds
    | SubfieldTruncated
    | SubfieldLengthOutOfBounds
    | BcSubfieldNotFound

  datatype BgzfHeader = BgzfHeader(bsize: u16)

  /** XLEN, the little-endian length of the extra field at bytes 10 and 11. */
  function Xlen(buf: seq<u8>): u16
    requires ReqFieldsSize <= |buf|
  {
    Le16(buf[10], buf[11])
  }

  /** The subfield starting at `p` has SI1 = 'B', SI2 = 'C' and SLEN = 2. */
  predicate IsBcAt(buf: seq<u8>, p: nat)
    requires p + SubfieldMinSize <= |buf|
  {
    buf[p] == Si1Bc && buf[p + 1] == Si2Bc && Le16(buf[p + 2], buf[p + 3]) == BcSlen
  }

  /**
   * The walk over the subfields in `[off, end)`: the value of the first `BC`
   * subfield of length 2, or the error that stops the walk first. Every other
   * subfield is skipped by its 4 header bytes plus SLEN.
   */
  function WalkExtra(buf: seq<u8>, off: nat, end: nat): Result<u16, HeaderError>
    requires off <= end <= |buf|
    decreases end - off
  {
    if off == end then Err(BcSubfieldNotFound)
    else if end - off < SubfieldMinSize then Err(SubfieldTruncated)
    else
      var slen := Le16(buf[off + 2], buf[off + 3]);
      if off + SubfieldMinSize + slen > end then Err(SubfieldLengthOutOfBounds)
      else if IsBcAt(buf, off) then Ok(Le16(buf[off + 4], buf[off + 5]))
      else WalkExtra(buf, off + SubfieldMinSize + slen, end)
  }

  /** What `parse_bgzf_header` returns for `buf`. */
  function ParseHeader(buf: seq<u8>): Result<BgzfHeader, HeaderError>
  {
    if |buf| < MinHeaderSize then Err(InputTooSmall)
    else if buf[0] != Id1 || buf[1] != Id2 then Err(BadMagic)
    else if buf[2] != CmDeflate then Err(BadCompressionMethod)
    else if buf[3] != FlgFextra then Err(BadFlags)
    else if Xlen(buf) + ReqFieldsSize > |buf| then Err(ExtraFieldOutOfBounds)
    else
      var w := WalkExtra(buf, ReqFieldsSize, ReqFieldsSize + Xlen(buf));
      if w.Ok? then Ok(BgzfHeader(w.value)) else Err(w.error)
  }

  /**
   * `p` is a subfield boundary reached from `off`: `off` itself, or the start
   * of a later subfield after skipping whole subfields (4 bytes plus SLEN)
   * that each lie inside `[off, end)`.
   */
  ghost predicate SubfieldStart(buf: seq<u8>, off: nat, end: nat, p: nat)
    requires off <= end <= |buf|
    decreases end - off
  {
    || p == off
    || (&& end - off >= SubfieldMinSize
        && off + SubfieldMinSize + Le16(buf[off + 2], buf[off + 3]) <= end
        && SubfieldStart(buf, off + SubfieldMinSize + Le16(buf[off + 2], buf[off + 3]), end, p))
  }

  /** No subfield reached from `off` before `p` is a `BC` subfield of length 2. */
  ghost predicate NoBcBefore(buf: seq<u8>, off: nat, end: nat, p: nat)
    requires off <= end <= |buf|
  {
    forall q: nat | q < p && SubfieldStart(buf, off, end, q) :: q + SubfieldMinSize <= end && !IsBcAt(buf, q)
  }

  /** Subfield boundaries reached from `off` lie at or after it. */
  lemma {:induction false} SubfieldStartAtLeast(buf: seq<u8>, off: nat, end: nat, p: nat)
    requires off <= end <= |buf|
    requires SubfieldStart(buf, off, end, p)
    decreases end - off
    ensures off <= p
  {
    if p != off {
      var next := off + SubfieldMinSize + Le16(buf[off + 2], buf[off + 3]);
      SubfieldStartAtLeast(buf, next, end, p);
    }
  }

  /** The walk fails only with one of the three subfield errors. */
  lemma {:induction false} WalkExtraErrors(buf: seq<u8>, off: nat, end: nat)
    requires off <= end <= |buf|
    decreases end - off
    ensures WalkExtra(buf, off, end).Err? ==>
      WalkExtra(buf, off, end).error in {SubfieldTruncated, SubfieldLengthOutOfBounds, BcSubfieldNotFound}
  {
    if off < end && end - off >= SubfieldMinSize {
      var slen := Le16(buf[off + 2], buf[off + 3]);
      if off + SubfieldMinSize + slen <= end && !IsBcAt(buf, off) {
        WalkExtraErrors(buf, off + SubfieldMinSize + slen, end);
      }
    }
  }

  /**
   * When the walk succeeds, its value is the payload of the first subfield
   * reached from `off` that is a `BC` subfield of length 2; that subfield
   * starts on a subfield boundary and lies wholly inside `[off, end)`.
   */
  lemma {:induction false} WalkExtraFindsBc(buf: seq<u8>, off: nat, end: nat)
    requires off <= end <= |buf|
    decreases end - off
    ensures WalkExtra(buf, off, end).Ok? ==>
      exists p: nat :: SubfieldStart(buf, off, end, p) && p + SubfieldMinSize + 2 <= end && IsBcAt(buf, p)
        && NoBcBefore(buf, off, end, p)
        && WalkExtra(buf, off, end).value == Le16(buf[p + 4], buf[p + 5])
  {
    if off < end && end - off >= SubfieldMinSize {
      var slen := Le16(buf[off + 2], buf[off + 3]);
      if off + SubfieldMinSize + slen <= end {
        var next := off + SubfieldMinSize + slen;
        if IsBcAt(buf, off) {
          forall q: nat | SubfieldStart(buf, off, end, q) ensures off <= q {
            SubfieldStartAtLeast(buf, off, end, q);
          }
          assert NoBcBefore(buf, off, end, off);
          assert SubfieldStart(buf, off, end, off);
        } else {
          WalkExtraFindsBc(buf, next, end);
          if WalkExtra(buf, next, end).Ok? {
            var p: nat :| SubfieldStart(buf, next, end, p) && p + SubfieldMinSize + 2 <= end && IsBcAt(buf, p)
              && NoBcBefore(buf, next, end, p)
              && WalkExtra(buf, next, end).value == Le16(buf[p + 4], buf[p + 5]);
            assert SubfieldStart(buf, off, end, p);
            forall q: nat | q < p && SubfieldStart(buf, off, end, q)
              ensures q + SubfieldMinSize <= end && !IsBcAt(buf, q)
            {
              if q != off {
                assert SubfieldStart(buf, next, end, q);
              }
            }
          }
        }
      }
    }
  }

  /**
   * An accepted header: the fixed gzip fields are those of a BGZF member, the
   * extra field fits in the buffer, and BSIZE is the payload of the first
   * subfield of the extra field that is a `BC` subfield of length 2.
   */
  lemma ParseHeaderAccepts(buf: seq<u8>)
    ensures ParseHeader(buf).Ok? ==>
      && |buf| >= MinHeaderSize
      && buf[0] == Id1 && buf[1] == Id2 && buf[2] == CmDeflate && buf[3] == FlgFextra
      && ReqFieldsSize + Xlen(buf) <= |buf|
      && exists p: nat :: SubfieldStart(buf, ReqFieldsSize, ReqFieldsSize + Xlen(buf), p)
           && p + SubfieldMinSize + 2 <= ReqFieldsSize + Xlen(buf)
           && IsBcAt(buf, p) && NoBcBefore(buf, ReqFieldsSize, ReqFieldsSize + Xlen(buf), p)
           && ParseHeader(buf).value.bsize == Le16(buf[p + 4], buf[p + 5])
  {
    if |buf| >= MinHeaderSize && ReqFieldsSize + Xlen(buf) <= |buf| {
      WalkExtraFindsBc(buf, ReqFieldsSize, ReqFieldsSize + Xlen(buf));
    }
  }

  /** The bytes a parse may touch: the fixed fields it checks, XLEN, and the extra field. */
  predicate InHeaderFields(buf: seq<u8>, i: nat)
  {
    i < 4 || i == 10 || i == 11 || (ReqFieldsSize <= |buf| && ReqFieldsSize <= i < ReqFieldsSize + Xlen(buf))
  }

  /**
   * The parser of src/main.rs: a cursor `off` walks the extra field. The ghost
   * `touched` collects every index of `buf` read; none is out of bounds, none
   * lies past the extra field, and a buffer under 16 bytes is not read at all.
   */
  method ParseBgzfHeader(buf: seq<u8>) returns (r: Result<BgzfHeader, HeaderError>, ghost touched: set<nat>)
    ensures r == ParseHeader(buf)
    ensures forall i | i in touched :: i < |buf| && InHeaderFields(buf, i)
    ensures |buf| < MinHeaderSize ==> touched == {}
  {
    touched := {};
    if |buf| < MinHeaderSize {
      return Err(InputTooSmall), touched;
    }
    touched := touched + {0};
    if buf[0] != Id1 {
      return Err(BadMagic), touched;
    }
    touched := touched + {1};
    if buf[1] != Id2 {
      return Err(BadMagic), touched;
    }
    touched := touched + {2};
    if buf[2] != CmDeflate {
      return Err(BadCompressionMethod), touched;
    }
    touched := touched + {3};
    if buf[3] != FlgFextra {
      return Err(BadFlags), touched;
    }
    var xlen := Le16(buf[10], buf[11]);
    touched := touched + {10, 11};
    if xlen + ReqFieldsSize > |buf| {
      return Err(ExtraFieldOutOfBounds), touched;
    }
    var off: nat := ReqFieldsSize;
    var end := off + xlen;
    while off < end
      invariant ReqFieldsSize <= off <= end == ReqFieldsSize + Xlen(buf) <= |buf|
      invariant WalkExtra(buf, off, end) == WalkExtra(buf, ReqFieldsSize, end)
      invariant forall i | i in touched :: i < 4 || i == 10 || i == 11 || ReqFieldsSize <= i < off
      decreases end - off
    {
      if end - off < SubfieldMinSize {
        return Err(SubfieldTruncated), touched;
      }
      ghost var start := off;
      var si1 := buf[off];
      off := off + 1;
      var si2 := buf[off];
      off := off + 1;
      var slen := Le16(buf[off], buf[off + 1]);
      off := off + 2;
      touched := touched + {start, start + 1, start + 2, start + 3};
      if off + slen > end {
        return Err(SubfieldLengthOutOfBounds), touched;
      }
      if si1 == Si1Bc && si2 == Si2Bc && slen == BcSlen {
        var bsize := Le16(buf[off], buf[off + 1]);
        touched := touched + {off, off + 1};
        return Ok(BgzfHeader(bsize)), touched;
      } else {
        off := off + slen;
      }
    }
    return Err(BcSubfieldNotFound), touched;
  }

  /** The fixed-field checks run in the source's order: size, magic, CM, FLG, XLEN bound. */
  lemma HeaderChecksInOrder(buf: seq<u8>)
    ensures ParseHeader(buf) == Err(InputTooSmall) <==> |buf| < MinHeaderSize
    ensures ParseHeader(buf) == Err(BadMagic) <==>
      |buf| >= MinHeaderSize && (buf[0] != Id1 || buf[1] != Id2)
    ensures ParseHeader(buf) == Err(BadCompressionMethod) <==>
      |buf| >= MinHeaderSize && buf[0] == Id1 && buf[1] == Id2 && buf[2] != CmDeflate
    ensures ParseHeader(buf) == Err(BadFlags) <==>
      |buf| >= MinHeaderSize && buf[0] == Id1 && buf[1] == Id2 && buf[2] == CmDeflate && buf[3] != FlgFextra
    ensures ParseHeader(buf) == Err(ExtraFieldOutOfBounds) <==>
      |buf| >= MinHeaderSize && buf[0] == Id1 && buf[1] == Id2 && buf[2] == CmDeflate && buf[3] == FlgFextra
      && ReqFieldsSize + Xlen(buf) > |buf|
  {
    if |buf| >= MinHeaderSize && ReqFieldsSize + Xlen(buf) <= |buf| {
      WalkExtraErrors(buf, ReqFieldsSize, ReqFieldsSize + Xlen(buf));
    }
  }
}
