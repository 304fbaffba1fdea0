/**
 * A reference reading of the FEXTRA region (RFC 1952, section 2.3.1.1): the
 * whole region decoded into its list of `{SI1, SI2, SLEN, data}` subfields,
 * independent of the early-returning search of `parse_bgzf_header`. The
 * lemmas here show that the search returns the payload of the FIRST `BC`
 * subfield of length 2 in that list, and that the decoded list re-encodes
 * to exactly the bytes it was read from.
 */
module ExtraSubfields {
  import opened Bytes
  import opened Results
  import opened HeaderParser

  datatype Subfield = Subfield(si1: u8, si2: u8, data: seq<u8>)

  /** Why decoding stopped: the region is used up, fewer than 4 bytes remain, or an SLEN overruns it. */
  datatype WalkStop = Exhausted | Truncated | Overrun

  predicate IsBc(f: Subfield)
  {
    f.si1 == Si1Bc && f.si2 == Si2Bc && |f.data| == BcSlen
  }

  /** BSIZE: the little-endian payload of a `BC` subfield. */
  function BcValue(f: Subfield): u16
    requires IsBc(f)
  {
    Le16(f.data[0], f.data[1])
  }

  /** The parser's error for each way the region can end without a `BC` subfield. */
  function StopError(stop: WalkStop): HeaderError
  {
    match stop
    case Exhausted => BcSubfieldNotFound
    case Truncated => SubfieldTruncated
    case Overrun => SubfieldLengthOutOfBounds
  }

  /** The well-formed subfields of `buf[off..end]`, in order, and why decoding stopped. */
  function Subfields(buf: seq<u8>, off: nat, end: nat): (r: (seq<Subfield>, WalkStop))
    requires off <= end <= |buf|
    decreases end - off
    ensures forall f | f in r.0 :: |f.data| < 0x1_0000
  {
    if off == end then ([], Exhausted)
    else if end - off < SubfieldMinSize then ([], Truncated)
    else
      var slen := Le16(buf[off + 2], buf[off + 3]);
      if off + SubfieldMinSize + slen > end then ([], Overrun)
      else
        var rest := Subfields(buf, off + SubfieldMinSize + slen, end);
        ([Subfield(buf[off], buf[off + 1], buf[off + SubfieldMinSize .. off + SubfieldMinSize + slen])] + rest.0, rest.1)
  }

  /** The bytes of one subfield: SI1, SI2, SLEN little-endian, then its data. */
  function EncodeSubfield(f: Subfield): (r: seq<u8>)
    requires |f.data| < 0x1_0000
    ensures |r| == SubfieldMinSize + |f.data|
  {
    [f.si1, f.si2, |f.data| % 0x100, |f.data| / 0x100] + f.data
  }

  function EncodeAll(fs: seq<Subfield>): seq<u8>
    requires forall f | f in fs :: |f.data| < 0x1_0000
  {
    if fs == [] then [] else EncodeSubfield(fs[0]) + EncodeAll(fs[1..])
  }

  /** Index of the first `BC` subfield of length 2, if any. */
  function FirstBc(fs: seq<Subfield>): (r: Option<nat>)
    ensures r.Some? ==> r.value < |fs| && IsBc(fs[r.value]) && forall j | 0 <= j < r.value :: !IsBc(fs[j])
    ensures r.None? ==> forall j | 0 <= j < |fs| :: !IsBc(fs[j])
  {
    if fs == [] then None
    else if IsBc(fs[0]) then Some(0)
    else
      var tail := FirstBc(fs[1..]);
      if tail.Some? then Some(tail.value + 1) else None
  }

  lemma EncodeAllCons(f: Subfield, rest: seq<Subfield>)
    requires |f.data| < 0x1_0000 && forall g | g in rest :: |g.data| < 0x1_0000
    ensures EncodeAll([f] + rest) == EncodeSubfield(f) + EncodeAll(rest)
  {
    assert ([f] + rest)[1..] == rest;
  }

  /** One decoded subfield re-encodes to the `4 + SLEN` bytes it was read from. */
  lemma SubfieldBytes(buf: seq<u8>, off: nat, next: nat)
    requires off + SubfieldMinSize <= next <= |buf|
    requires Le16(buf[off + 2], buf[off + 3]) == next - off - SubfieldMinSize
    ensures EncodeSubfield(Subfield(buf[off], buf[off + 1], buf[off + SubfieldMinSize .. next])) == buf[off .. next]
  {
    var data := buf[off + SubfieldMinSize .. next];
    assert buf[off .. next] == [buf[off], buf[off + 1], buf[off + 2], buf[off + 3]] + data;
  }

  /** The subfield at `off`, followed by subfields already known to re-encode to `buf[next..]`, re-encodes to `buf[off..]`. */
  lemma ReencodeStep(buf: seq<u8>, off: nat, next: nat, rest: seq<Subfield>)
    requires off + SubfieldMinSize <= next <= |buf|
    requires Le16(buf[off + 2], buf[off + 3]) == next - off - SubfieldMinSize
    requires forall g | g in rest :: |g.data| < 0x1_0000
    requires next + |EncodeAll(rest)| <= |buf| && buf[next .. next + |EncodeAll(rest)|] == EncodeAll(rest)
    ensures var fs := [Subfield(buf[off], buf[off + 1], buf[off + SubfieldMinSize .. next])] + rest;
      off + |EncodeAll(fs)| <= |buf| && buf[off .. off + |EncodeAll(fs)|] == EncodeAll(fs)
  {
    var f := Subfield(buf[off], buf[off + 1], buf[off + SubfieldMinSize .. next]);
    EncodeAllCons(f, rest);
    SubfieldBytes(buf, off, next);
    var n := |EncodeAll(rest)|;
    assert buf[off .. next + n] == buf[off .. next] + buf[next .. next + n];
  }

  /**
   * The decoded subfields, re-encoded, fit inside `[off, end)`; they reach
   * `end` exactly when decoding stopped because the region was used up.
   */
  lemma {:induction false} SubfieldsSpan(buf: seq<u8>, off: nat, end: nat)
    requires off <= end <= |buf|
    decreases end - off
    ensures off + |EncodeAll(Subfields(buf, off, end).0)| <= end
    ensures Subfields(buf, off, end).1 == Exhausted <==> off + |EncodeAll(Subfields(buf, off, end).0)| == end
  {
    if off < end && end - off >= SubfieldMinSize {
      var slen := Le16(buf[off + 2], buf[off + 3]);
      if off + SubfieldMinSize + slen <= end {
        var next := off + SubfieldMinSize + slen;
        SubfieldsSpan(buf, next, end);
        var (rest, stop) := Subfields(buf, next, end);
        var f := Subfield(buf[off], buf[off + 1], buf[off + SubfieldMinSize .. next]);
        assert Subfields(buf, off, end) == ([f] + rest, stop);
        EncodeAllCons(f, rest);
      }
    }
  }

  /**
   * Decoding and re-encoding: the decoded subfields occupy `buf[off..]` back
   * to back, each exactly its 4 header bytes plus SLEN bytes of data.
   */
  lemma {:induction false} SubfieldsReencode(buf: seq<u8>, off: nat, end: nat)
    requires off <= end <= |buf|
    decreases end - off
    ensures off + |EncodeAll(Subfields(buf, off, end).0)| <= end
    ensures buf[off .. off + |EncodeAll(Subfields(buf, off, end).0)|] == EncodeAll(Subfields(buf, off, end).0)
  {
    SubfieldsSpan(buf, off, end);
    if off < end && end - off >= SubfieldMinSize {
      var slen := Le16(buf[off + 2], buf[off + 3]);
      if off + SubfieldMinSize + slen <= end {
        var next := off + SubfieldMinSize + slen;
        SubfieldsReencode(buf, next, end);
        var (rest, stop) := Subfields(buf, next, end);
        var f := Subfield(buf[off], buf[off + 1], buf[off + SubfieldMinSize .. next]);
        assert Subfields(buf, off, end) == ([f] + rest, stop);
        ReencodeStep(buf, off, next, rest);
      }
    }
  }

  /**
   * The subfield walk of `parse_bgzf_header` returns the payload of the first
   * `BC` subfield of length 2 in the decoded list; when there is none, it
   * reports how decoding stopped.
   */
  lemma {:induction false} WalkFindsFirstBc(buf: seq<u8>, off: nat, end: nat)
    requires off <= end <= |buf|
    decreases end - off
    ensures var (fs, stop) := Subfields(buf, off, end);
      var first := FirstBc(fs);
      WalkExtra(buf, off, end) == if first.Some? then Ok(BcValue(fs[first.value])) else Err(StopError(stop))
  {
    if off == end || end - off < SubfieldMinSize {
    } else {
      var slen := Le16(buf[off + 2], buf[off + 3]);
      if off + SubfieldMinSize + slen <= end {
        var next := off + SubfieldMinSize + slen;
        WalkFindsFirstBc(buf, next, end);
        var (rest, stop) := Subfields(buf, next, end);
        var f := Subfield(buf[off], buf[off + 1], buf[off + SubfieldMinSize .. next]);
        var fs := [f] + rest;
        assert Subfields(buf, off, end) == (fs, stop);
        assert fs[0] == f && fs[1..] == rest;
        if IsBcAt(buf, off) {
          assert IsBc(f) && BcValue(f) == Le16(buf[off + 4], buf[off + 5]);
          assert FirstBc(fs) == Some(0);
        } else {
          assert !IsBc(f);
          assert FirstBc(fs) == if FirstBc(rest).Some? then Some(FirstBc(rest).value + 1) else None;
        }
      }
    }
  }

  /**
   * `parse_bgzf_header` on a buffer whose fixed fields pass: BSIZE is the
   * payload of the first `BC` subfield of length 2 in the extra field, and
   * without one the parse fails with the error that ended the region.
   */
  lemma ParseFindsFirstBc(buf: seq<u8>)
    requires |buf| >= MinHeaderSize
    requires buf[0] == Id1 && buf[1] == Id2 && buf[2] == CmDeflate && buf[3] == FlgFextra
    requires ReqFieldsSize + Xlen(buf) <= |buf|
    ensures var (fs, stop) := Subfields(buf, ReqFieldsSize, ReqFieldsSize + Xlen(buf));
      var first := FirstBc(fs);
      ParseHeader(buf) == if first.Some? then Ok(BgzfHeader(BcValue(fs[first.value]))) else Err(StopError(stop))
  {
    WalkFindsFirstBc(buf, ReqFieldsSize, ReqFieldsSize + Xlen(buf));
  }
}
