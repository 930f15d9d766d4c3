# snap_4KiB_t: a block-buffered memory channel, in Dafny

This project models the `snap_4KiB_t` channel of `actions/include/hls_minibuf.H` in the
SNAP framework. The channel turns single-word reads and writes of bus words into
4 KiB block transfers against a bounded linear memory `mem[0..max_lines)`.

- **Read mode** (`snap_4KiB_rinit`, `snap_4KiB_get`): when the buffer is used up, the
  channel refills it with up to one block of the region. It hands out one word per call.
  Once both the region and the buffer are used up, it returns the all-ones word.
- **Write mode** (`snap_4KiB_winit`, `snap_4KiB_put`, `snap_4KiB_flush`): the channel
  collects words in the buffer. Each flush writes out `min(free_lines, b_idx)` of them.
  Words that no longer fit in the region are dropped without notice.

The C code mutates a struct in place. Here the struct is an immutable `Channel` value
holding the memory (as a sequence), the buffer, `maxLines`, `mIdx` and `bIdx`. Every C
function becomes a pure function from the old channel to the new one.

Files:

- `minibuf.dfy` (module `Minibuf`): the words, the channel and its invariant `Valid`. Also
  the operations `Empty`, `RInit`, `WInit`, `Refill` (the refill step inside `get`),
  `Get`, `Flush` and `Put`.
- `readstream.dfy` (module `ReadStream`): `Gets`, which runs n gets, and `ReadRef`.
  `ReadRef` is a closed-form reference for the k-th word a read after `rinit` hands out.
  The module proves that the state machine agrees with it.
- `writestream.dfy` (module `WriteStream`): `Puts`, which runs a sequence of puts. It
  proves what winit, puts and a final flush leave in memory, and the round trip back
  through rinit and gets.

The cursor fields have the struct's own widths: `u16` for `unsigned short` and `u8` for
`unsigned char`. So every operation is checked not to overflow them. The block size is
`SNAP_4KiB_WORDS = 4096 / 64 = 64` words.

### Reads past the region

One might expect the all-ones word for every read past `max_lines`. The code does
otherwise, and this model follows the code.

Take a `max_lines` that is not a multiple of the block size. The last refill copies fewer
than a block of words but still resets `b_idx` to 0. The reads after the last valid word
then return leftover buffer contents until `b_idx` reaches the block size. They return
either the word one block earlier or, in the first block, what the buffer held before
`rinit`. The comment at `hls_minibuf.H:69-72` says as much.

The all-ones word comes back only from the next block boundary, `RoundUp(max_lines)`, on.
`ReadRef` states this exactly, and `ShortRegionReadsLeftover` gives a concrete instance.
By the same formula, a 4-word block with `max_lines = 10` would make reads 11 and 12
return words 7 and 8, not the all-ones word.

## Model

| member | source | states |
|---|---|---|
| Minibuf.RInit | actions/include/hls_minibuf.H:51-58 | binds memory and max_lines, leaves the buffer alone, zeroes the memory cursor and marks the whole buffer used (bIdx = BLOCK) so that the first get refills; the channel is not empty, satisfies the invariant when the region fits, and is already exhausted exactly when max_lines is 0 |
| Minibuf.WInit | actions/include/hls_minibuf.H:60-67 | binds memory and max_lines, leaves the buffer alone, zeroes the memory cursor; the channel is empty and satisfies the invariant when the region fits |
| Minibuf.Refill | actions/include/hls_minibuf.H:80-104 | the refill puts the region's word at mIdx + j in buffer slot j wherever that is below max_lines and keeps the old slot elsewhere; mIdx advances to min(mIdx + BLOCK, max_lines), bIdx restarts at 0, memory is untouched, the invariant is kept |
| Minibuf.Get | actions/include/hls_minibuf.H:69-107 | an exhausted channel hands out the all-ones word and stays as it is; otherwise the word handed out is the buffer slot just consumed; a get that refills leaves exactly the channel Refill leaves with one slot consumed, moves at least one word (the zero-length transfer never happens) and hands out mem[mIdx]; a get from a partly used buffer hands out buf[bIdx] and only advances bIdx; memory and the invariant are kept |
| Minibuf.Flush | actions/include/hls_minibuf.H:109-140 | writes buffer slot i - mIdx to memory word i exactly for mIdx <= i < min(mIdx + bIdx, max_lines), leaves every other memory word (in particular all from max_lines on) as it was, advances mIdx to that bound and leaves the channel empty; a flush of an empty channel changes nothing |
| Minibuf.Put | actions/include/hls_minibuf.H:142-150 | the word lands in the slot before the new bIdx, every other buffer slot keeps its contents, and the channel is not empty; with room in the buffer memory and mIdx are unchanged and bIdx advances by one; with a full buffer memory and mIdx become what a flush leaves and bIdx is 1; memory from max_lines on is never written |
| Minibuf.EmptyIffFlushNothing | actions/include/hls_minibuf.H:46-49 | snap_4KiB_empty holds exactly when a flush would change nothing, i.e. no word is pending |
| Minibuf.FlushIdempotent | actions/include/hls_minibuf.H:115-140 | a second flush with no put in between changes nothing |
| ReadStream.Gets | actions/include/hls_minibuf.H:73-107 | n gets hand out exactly n words, keep the invariant, memory and max_lines, and never move the memory cursor back |
| ReadStream.GetStep | actions/include/hls_minibuf.H:73-107 | from the k-th read position one get hands out the reference word for k and moves to position k + 1, or stays put at the block boundary past the region |
| ReadStream.ReadsAfterRInit | actions/include/hls_minibuf.H:51-107 | after rinit the k-th get hands out ReadRef at k for every k: the region's word below max_lines, leftover buffer words up to the next block boundary, the all-ones word from there on |
| ReadStream.ReadsInOrder | actions/include/hls_minibuf.H:73-107 | after rinit the first min(n, max_lines) of n gets return mem[0..min(n, max_lines)) in order, for every ratio of block size to region size |
| ReadStream.ReadsPastEnd | actions/include/hls_minibuf.H:69-103 | gets at positions max_lines up to the next block boundary return the word one block earlier or the pre-rinit buffer; gets from the block boundary on return the all-ones word |
| ReadStream.ShortRegionReadsLeftover | actions/include/hls_minibuf.H:69-72 | with a one-word region the second get returns the buffer's earlier contents, not the all-ones word |
| ReadStream.ExhaustedStays | actions/include/hls_minibuf.H:75-79 | once region and buffer are used up every later get returns the all-ones word and changes nothing |
| WriteStream.Puts | actions/include/hls_minibuf.H:142-150 | a sequence of puts keeps the invariant and max_lines, keeps the memory's length and never writes memory from max_lines on |
| WriteStream.PutStep | actions/include/hls_minibuf.H:142-150 | one put keeps the write invariant: the first min(f, max_lines) of the f words pushed out of the buffer are in memory in order, the rest of memory is untouched, the buffer holds the words put since |
| WriteStream.FlushStep | actions/include/hls_minibuf.H:115-140 | a flush in mid-stream keeps the write invariant and moves mIdx to min(words put, max_lines) |
| WriteStream.PutsFromWInit | actions/include/hls_minibuf.H:60-67 | winit followed by any sequence of puts satisfies the write invariant |
| WriteStream.FlushedMemory | actions/include/hls_minibuf.H:115-140 | a final flush leaves the first min(words put, max_lines) words put at the front of memory and the rest of memory unchanged |
| WriteStream.WriteThenFlush | actions/include/hls_minibuf.H:109-150 | winit, the puts of ws and a flush leave memory equal to ws[..t] + mem[t..] with t the smaller of the length of ws and max_lines, and mIdx = t |
| WriteStream.EmptyAfterPuts | actions/include/hls_minibuf.H:46-49 | after winit and a sequence of puts the channel is empty exactly when the sequence is empty |
| WriteStream.ExcessPutsDropped | actions/include/hls_minibuf.H:109-114 | words put after the region is full leave no trace in memory after the final flush |
| WriteStream.RoundTrip | actions/include/hls_minibuf.H:51-150 | words written through winit, puts and flush and read back through rinit and gets come back in order for every position below max_lines |

## Left out

- The `CONFIG_4KIB_DEBUG` tracing with `fprintf` (hls_minibuf.H:85-88, 120-125). It only prints.
- The byte-level `memcpy` and its split into a full-block case and a default case
  (hls_minibuf.H:89-100, 126-137). Both cases copy the same words, so each is one sequence
  slice of `tocopy` words. The skip for a zero-length transfer is kept.
- The bus word type `snap_membus_t` and the `MIN` macro. Both come from hls_snap.H, which
  is not part of this model. A word is an unsigned number below 2^512 (64 bytes), the
  all-ones word is 2^512 - 1, and `MIN` is the ordinary minimum.
- Calls that break the invariant `Valid`: memory cursor beyond `max_lines`, a region
  longer than the memory, or a buffer cursor beyond the block. The C code has no checks
  for these (hls_minibuf.H:28) and would read or write out of bounds. The operations
  require `Valid`, and every operation keeps it.
- Mixing read and write mode on one channel. The source leaves this undefined. The
  operations still accept any valid channel, but the stream lemmas cover one mode per
  lifetime.
- Aliasing between the buffer and the memory. In the model they are separate values.
- The block size is fixed at 64 words, as the source fixes it at compile time from the
  64-byte bus word. Other bus widths are not covered. The lemmas hold for any region size.
