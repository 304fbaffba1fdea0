# rbgzip: BGZF header parsing and block indexing

rbgzip decompresses BGZF files, the blocked gzip container used by BAM
(SAM/BAM format specification, section 4.1). A BGZF file is a sequence of
gzip members (RFC 1952). Each member's header carries an extra field
(FEXTRA, RFC 1952, section 2.3.1.1). That field holds a `BC` subfield whose
2-byte payload BSIZE is the member's total length minus one.

This project models the core of `src/main.rs` in two parts:

- `parse_bgzf_header` (modules `HeaderParser` and `ExtraSubfields`):
  - It checks the fixed gzip fields: the length is at least 16, the magic is 31 139, CM is 8 and FLG is 4.
  - It checks that XLEN fits in the buffer.
  - It walks the extra field subfield by subfield until it meets `BC` with SLEN 2.
  - Each of its exits is a separate `HeaderError`.
- `handle_input` (module `BlockIndexer`):
  - An indexing loop parses a header at the current offset and records the block `(offset, BSIZE + 1)`, then advances by that size.
  - A dispatch loop hands each block's byte span to the gzip decoder, in index order.

Both loops are modelled as they are written. The source's u16 arithmetic
and its missing bounds check are explicit error cases, not panics:

- `BlockSizeOverflow`: the header says BSIZE = 65535, and `hdr.bsize + 1` cannot be held in a u16.
- `SliceOutOfBounds`: the last indexed block runs past the buffer. Slicing its span fails, but only after every earlier span has been handed over.

Module `CheckedIndexer` holds the evidently intended indexer and relates it
to the as-written one:

- block sizes are computed at full width;
- a block that would run past the buffer is refused during indexing, so a malformed container reaches the decoder with nothing.

Every parsing and indexing method is imperative, like the source. Each one
is proved equal to a specification function (`ParseHeader`, `Index`,
`IndexChecked`), and lemmas prove properties of those functions.

`ExtraSubfields.Subfields` is an independent reference reading of the
extra field. It decodes the whole region into a list of subfields. The
lemmas about it show two things:

- the parser's early-returning walk yields the payload of the first `BC` subfield of that list;
- the list re-encodes to exactly the bytes it was read from.

The gzip decoder `decompress_gz` is not modelled. The dispatch methods
return, in order, the list of byte spans they hand to it.

The model follows the code, which leaves out three things a BGZF reader
might be expected to do:

- refuse to index a block that runs past the buffer, which the `todo` at src/main.rs:92 asks for;
- check the 28-byte end-of-file marker (SAM/BAM format specification, section 4.1.2);
- decode blocks in parallel and merge the results back into block order.

`src/main.rs` does none of them: it indexes every block, then decodes the
blocks one at a time in index order. None of the three is modelled as
present. The first appears only as the corrected indexer in
`CheckedIndexer`.

## Model

| member | source | states |
|---|---|---|
| Bytes.Le16 | src/main.rs:43 | The little-endian u16 read from two bytes keeps the low byte as its value mod 256 and the high byte as its value div 256, so both bytes can be recovered from it. |
| HeaderParser.ParseBgzfHeader | src/main.rs:24-79 | The cursor-based parser returns exactly `ParseHeader(buf)`. Every byte it reads lies inside the buffer and is one of bytes 0-3, XLEN (bytes 10-11) or the extra field. It reads nothing from a buffer shorter than 16 bytes. |
| HeaderParser.HeaderChecksInOrder | src/main.rs:25-48 | Each fixed-field error is returned exactly when the earlier checks pass and its own check fails: too small (under 16 bytes), bad magic (31 139), bad CM (8), bad FLG (4), and XLEN + 12 past the end of the buffer. |
| HeaderParser.WalkExtraErrors | src/main.rs:52-78 | The subfield walk fails only with "subfield truncated", "SLEN out of bounds" or "BC not found". |
| HeaderParser.WalkExtraFindsBc | src/main.rs:52-75 | On success, the walk's value is the little-endian payload of a subfield with SI1 = 66, SI2 = 67 and SLEN = 2. That subfield starts on a subfield boundary reached from the start of the region by skipping whole subfields (4 + SLEN bytes each), and it lies wholly inside the region. No subfield boundary before it is such a subfield. |
| HeaderParser.ParseHeaderAccepts | src/main.rs:24-79 | An accepted header has a length of at least 16, magic 31 139, CM 8, FLG 4, and an extra field that fits the buffer. Its BSIZE is the payload of the first subfield of the extra field that is a `BC` subfield of length 2, found on a subfield boundary. |
| ExtraSubfields.FirstBc | src/main.rs:69-75 | The index found is that of a `BC` subfield of length 2, and no earlier subfield is one. `None` means no subfield is one. |
| ExtraSubfields.SubfieldsSpan | src/main.rs:52-67 | The subfields decoded from `[off, end)` fit inside it. They reach `end` exactly when decoding stopped because the region was used up, rather than on a truncated subfield or an overrunning SLEN. |
| ExtraSubfields.SubfieldsReencode | src/main.rs:58-74 | Re-encoding the decoded subfields (SI1, SI2, SLEN little-endian, data) gives back exactly the bytes of the buffer from `off` on, each subfield taking 4 + SLEN bytes. |
| ExtraSubfields.WalkFindsFirstBc | src/main.rs:52-78 | The parser's walk returns the payload of the first `BC` subfield of length 2 in the decoded list. When there is none, it returns the error matching how decoding stopped: used up is "BC not found", fewer than 4 bytes left is "truncated", and SLEN past the end is "SLEN out of bounds". |
| ExtraSubfields.ParseFindsFirstBc | src/main.rs:43-78 | For a buffer whose fixed fields pass, `parse_bgzf_header` returns as BSIZE the payload of the first `BC` subfield of the extra field, or the error that ended decoding of the extra field. |
| BlockIndexer.IndexFromChains | src/main.rs:88-98 | Indexing from an offset succeeds with an empty list exactly when the offset is at or past the end. Otherwise it gives a chain of blocks starting at that offset, each starting inside the buffer where the previous one ended, with the last reaching or passing the end. Every size fits in a u16 (1 to 65535). |
| BlockIndexer.IndexFromHeaders | src/main.rs:89-97 | Every indexed block starts at a header that parses, and its size is that header's BSIZE + 1. |
| BlockIndexer.IndexTiles | src/main.rs:86-98 | A successful index is empty exactly for the empty buffer. It starts at offset 0 and its offsets strictly increase. The blocks have no gap and no overlap, and every block but the last ends inside the buffer. |
| BlockIndexer.IndexBlocks | src/main.rs:87-98 | The indexing loop returns exactly `Index(buf)`. This includes the header error at the first failing offset and `BlockSizeOverflow` for BSIZE = 65535. On success it is a chain from 0 whose sizes fit a u16. |
| BlockIndexer.DispatchSpans | src/main.rs:100-104 | Block spans are handed over in index order, and each is exactly its block's bytes. The loop succeeds exactly when the chain is empty or its last block ends at the buffer's end, and then the spans concatenate to the whole buffer. Otherwise it fails with `SliceOutOfBounds` after handing over every block but the last, and their spans concatenate to the buffer up to the last block's offset. |
| BlockIndexer.HandleInput | src/main.rs:86-107 | An indexing error stops the run before any span is handed over. Otherwise the run dispatches the indexed blocks, with the outcomes above. |
| CheckedIndexer.IndexCheckedFromTiles | src/main.rs:92 | With the bounds check in place, a successful index is a chain from the starting offset whose last block ends exactly at the end of the buffer. |
| CheckedIndexer.IndexCheckedFromHeaders | src/main.rs:89-97 | With the bounds check in place, every block still starts at a header that parses and has size BSIZE + 1. |
| CheckedIndexer.CheckedAcceptsWellFormed | src/main.rs:89-98 | Where the as-written indexing succeeds and its last block ends exactly at the end of the buffer, the checked indexing gives the same blocks. |
| CheckedIndexer.WellFormedAcceptedAsWritten | src/main.rs:89-98 | Where the checked indexing succeeds with no 65536-byte block, the as-written indexing gives the same blocks. |
| CheckedIndexer.IndexBlocksChecked | src/main.rs:87-98 | The indexing loop with the bounds check returns exactly `IndexChecked(buf)`. On success the blocks tile the buffer exactly, and each is sized by its own header. |
| CheckedIndexer.HandleInputChecked | src/main.rs:86-107 | With the bounds check in place, a malformed container hands over no span at all. A well-formed one hands over every block's exact bytes in order, and together they make up the whole buffer. |
| CheckedIndexer.MaxSizeBlockRejectedAsWritten | src/main.rs:91 | Take a 65536-byte buffer whose header has BSIZE 65535. The as-written indexing fails with `BlockSizeOverflow`, while the checked indexing records it as one block of 65536 bytes. |
| CheckedIndexer.OverrunExampleFirstHeader | src/main.rs:24-79 | The first header of the overrun example (an empty BGZF block, 28 bytes) parses with BSIZE 27. |
| CheckedIndexer.OverrunExampleSecondHeader | src/main.rs:24-79 | The 18-byte second header of the overrun example parses with BSIZE 255. |
| CheckedIndexer.OverrunAcceptedAsWritten | src/main.rs:92-103 | The as-written indexing accepts the 46-byte overrun example as blocks (0, 28) and (28, 256), though the second ends 238 bytes past the buffer. The checked indexing refuses it with `BlockExceedsBuffer`. |

## Left out

- `main` (src/main.rs:109-144) is not modelled: argument parsing, the file-existence checks and their messages, and the process exit status.
- The memory map (src/main.rs:138-141) is not modelled. The input is an immutable byte sequence, as the mapped file is never written.
- `decompress_gz` (src/main.rs:81-84) is not modelled: DEFLATE decoding, the gzip trailer and the copy to standard output. Each call is recorded as the byte span passed to it. Its ignored I/O result is not modelled.
- Panics are modelled as error results: the u16 overflow of `hdr.bsize + 1` in a debug build (src/main.rs:91) and the out-of-bounds slice `&buf[start..end]` (src/main.rs:103). A header error leaves `handle_input` through `?` as an `Err` (src/main.rs:90), which `main` then turns into a panic with `.unwrap()` (src/main.rs:143); the model stops at the `Err`.
- A release build would wrap `65535 + 1` to 0 and stay at the same offset, pushing one more block entry on every pass until memory runs out. The model stops with `BlockSizeOverflow` instead.
- Block sizes are unbounded naturals in the model, where the source stores a u16. `BlockIndexer.IndexFromChains` proves that the as-written indexer only ever records sizes from 1 to 65535, so no truncation can occur.
- The error messages are not modelled. Each distinct error exit of the source is a separate constructor of `HeaderError` or `InputError`.
- The end-of-file marker check, the worker thread pool, the shared claim counter and the order-preserving merge of decoded blocks are not modelled. `src/main.rs` contains none of them: it indexes all blocks, then decodes them one at a time in index order.
- Decoding failures inside a block are not modelled, because they belong to the gzip decoder.

## Findings

| source | as written | input that shows it | evidently intended | confidence | as-written member | corrected member |
|---|---|---|---|---|---|---|
| src/main.rs:91 | `hdr.bsize + 1` is computed in u16, so BSIZE = 65535 overflows: a panic in a debug build, and an endless loop at the same offset in a release build | a 65536-byte block whose `BC` payload is 65535, the largest block BGZF allows | a block of 65536 bytes is indexed like any other | not executed | CheckedIndexer.MaxSizeBlockRejectedAsWritten | CheckedIndexer.IndexBlocksChecked |
| src/main.rs:92-103 | no check that a block lies inside the buffer (the `todo` at line 92), so an overrunning last block is indexed and the failure comes only at the slice on line 103, after earlier blocks were already decompressed to standard output | `CheckedIndexer.OverrunExample`: a 28-byte empty block followed by an 18-byte header announcing BSIZE 255 | indexing refuses the block before any output is produced | not executed | CheckedIndexer.OverrunAcceptedAsWritten | CheckedIndexer.HandleInputChecked |
