/**
 The block-buffered memory channel `snap_4KiB_t` of actions/include/hls_minibuf.H.

 A channel sits between a caller that reads or writes one bus word at a time and a
 bounded linear memory `mem[0..maxLines)`. In read mode it refills an internal buffer
 of BLOCK words from memory whenever the buffer runs out; in write mode it collects
 words in the buffer and writes them out in one transfer per flush.

 The C struct is mutated in place; here every operation is a pure function from the
 old channel to the new one, and the memory the struct points to is part of the value.
 */
module Minibuf {

  /** SNAP_4KiB_WORDS: the number of bus words in one 4 KiB block. A bus word
      `snap_membus_t` (declared in hls_snap.H, which is not part of this model) is 512 bits,
      64 bytes, so a block holds 4096 / 64 words. */
  const BLOCK: nat := 64

  /** 2^512: one more than the largest bus word. */
  const WORD_MODULUS: int := 0x1_0000_0000_0000_0000_0000_0000_0000_0000_0000_0000_0000_0000_0000_0000_0000_0000_0000_0000_0000_0000_0000_0000_0000_0000_0000_0000_0000_0000_0000_0000_0000_0000

  /** One bus word, as the unsigned number its 512 bits spell. The channel
      never looks inside a word; it only copies and compares. */
  type Word = w: int | 0 <= w < WORD_MODULUS

  /** The value of `(snap_membus_t)-1`, handed out once the region is exhausted. */
  const ALL_ONES: Word := WORD_MODULUS - 1

  /** The widths of the struct's cursor fields: `unsigned short` and `unsigned char`. */
  type u16 = x: int | 0 <= x < 0x1_0000
  type u8 = x: int | 0 <= x < 0x100

  /** The fixed-size buffer `buf[SNAP_4KiB_WORDS]`. */
  type Block = s: seq<Word> | |s| == BLOCK witness seq(BLOCK, _ => 0)

  /** The state of one `snap_4KiB_t`: the memory it points to, its buffer, the number of
      lines it may touch, the memory cursor and the buffer cursor. */
  datatype Channel = Channel(mem: seq<Word>, buf: Block, maxLines: u16, mIdx: u16, bIdx: u8)

  /** What every operation relies on and preserves: the memory cursor stays inside the
      declared region, the region fits in the memory, and the buffer cursor stays inside
      the buffer (the source has no bounds checks of its own). */
  predicate Valid(c: Channel)
  {
    c.mIdx <= c.maxLines <= |c.mem| && c.bIdx <= BLOCK
  }

  /** Read mode has nothing left: the region is used up and so is the buffer. */
  predicate Exhausted(c: Channel)
  {
    c.mIdx == c.maxLines && c.bIdx == BLOCK
  }

  /** The `MIN` macro of hls_snap.H. */
  function Min(a: int, b: int): (r: int)
    ensures r <= a && r <= b && (r == a || r == b)
  {
    if a < b then a else b
  }

  /** snap_4KiB_empty: no word is pending in the buffer (write-mode convention). */
  predicate Empty(c: Channel)
  {
    c.bIdx == 0
  }

  /** snap_4KiB_rinit: bind the channel to a region for reading. The buffer is marked used
      up so that the first get refills it; nothing is read yet. */
  function RInit(c: Channel, mem: seq<Word>, maxLines: u16): (r: Channel)
    ensures r.mem == mem && r.maxLines == maxLines && r.buf == c.buf
    ensures r.mIdx == 0 && r.bIdx == BLOCK && !Empty(r)
    ensures maxLines <= |mem| ==> Valid(r)
    ensures Exhausted(r) <==> maxLines == 0
  {
    c.(mem := mem, maxLines := maxLines, mIdx := 0, bIdx := BLOCK)
  }

  /** snap_4KiB_winit: bind the channel to a region for writing, with nothing buffered. */
  function WInit(c: Channel, mem: seq<Word>, maxLines: u16): (r: Channel)
    ensures r.mem == mem && r.maxLines == maxLines && r.buf == c.buf
    ensures r.mIdx == 0 && Empty(r)
    ensures maxLines <= |mem| ==> Valid(r)
  {
    c.(mem := mem, maxLines := maxLines, mIdx := 0, bIdx := 0)
  }

  /** The refill step of snap_4KiB_get: copy the next min(BLOCK, maxLines - mIdx) words of
      the region to the front of the buffer and restart the buffer cursor. A transfer of
      zero words is skipped, as the source does. */
  function Refill(c: Channel): (r: Channel)
    requires Valid(c) && c.bIdx == BLOCK
    ensures Valid(r) && r.bIdx == 0
    ensures r.mem == c.mem && r.maxLines == c.maxLines
    ensures r.mIdx == Min(c.mIdx + BLOCK, c.maxLines)
    ensures forall j :: 0 <= j < BLOCK ==>
              r.buf[j] == (if c.mIdx + j < c.maxLines then c.mem[c.mIdx + j] else c.buf[j])
  {
    var tocopy := Min(BLOCK, c.maxLines - c.mIdx);
    var buf := if tocopy == 0 then c.buf else c.mem[c.mIdx .. c.mIdx + tocopy] + c.buf[tocopy..];
    c.(buf := buf, mIdx := c.mIdx + tocopy, bIdx := 0)
  }

  /** The outcome of one get: the word handed out and the channel afterwards. */
  datatype Fetch = Fetch(line: Word, next: Channel)

  /** snap_4KiB_get: hand out one word, refilling the buffer first when it is used up.
      Once region and buffer are both used up the all-ones word comes back and nothing
      changes. */
  function Get(c: Channel): (r: Fetch)
    requires Valid(c)
    ensures Valid(r.next) && r.next.mem == c.mem && r.next.maxLines == c.maxLines
    ensures c.mIdx <= r.next.mIdx
    ensures Exhausted(c) ==> r.line == ALL_ONES && r.next == c
    ensures !Exhausted(c) ==> 1 <= r.next.bIdx && r.line == r.next.buf[r.next.bIdx - 1]
    // a refill inside get always moves at least one word: the zero-length case is unreachable
    ensures c.bIdx == BLOCK && !Exhausted(c) ==>
              c.mIdx < r.next.mIdx && r.next.bIdx == 1 && r.line == c.mem[c.mIdx] &&
              r.next == Refill(c).(bIdx := 1)
    ensures c.bIdx < BLOCK ==> r.line == c.buf[c.bIdx] && r.next == c.(bIdx := c.bIdx + 1)
  {
    if c.mIdx == c.maxLines && c.bIdx == BLOCK then
      Fetch(ALL_ONES, c)
    else
      var c' := if c.bIdx == BLOCK then Refill(c) else c;
      Fetch(c'.buf[c'.bIdx], c'.(bIdx := c'.bIdx + 1))
  }

  /** snap_4KiB_flush: write the pending words out, as many as the region still has room
      for, and empty the buffer. Words that do not fit are dropped. Memory outside the
      window just written, and in particular everything from maxLines on, is unchanged. */
  function Flush(c: Channel): (r: Channel)
    requires Valid(c)
    ensures Valid(r) && Empty(r)
    ensures r.buf == c.buf && r.maxLines == c.maxLines && |r.mem| == |c.mem|
    ensures r.mIdx == Min(c.mIdx + c.bIdx, c.maxLines)
    ensures forall i :: 0 <= i < |c.mem| ==>
              r.mem[i] == (if c.mIdx <= i < r.mIdx then c.buf[i - c.mIdx] else c.mem[i])
    ensures r.mem[c.maxLines..] == c.mem[c.maxLines..]
    ensures Empty(c) ==> r == c
  {
    var freeLines := c.maxLines - c.mIdx;
    var tocopy := Min(freeLines, c.bIdx);
    var mem := if tocopy == 0 then c.mem
               else c.mem[..c.mIdx] + c.buf[..tocopy] + c.mem[c.mIdx + tocopy..];
    c.(mem := mem, mIdx := c.mIdx + tocopy, bIdx := 0)
  }

  /** snap_4KiB_put: append one word to the buffer, flushing it first when it is full.
      The word is always accepted, even when the region has no room left for it. */
  function Put(c: Channel, line: Word): (r: Channel)
    requires Valid(c)
    ensures Valid(r) && !Empty(r) && r.buf[r.bIdx - 1] == line
    ensures forall j :: 0 <= j < BLOCK && j != r.bIdx - 1 ==> r.buf[j] == c.buf[j]
    ensures r.maxLines == c.maxLines && |r.mem| == |c.mem|
    ensures r.mem[c.maxLines..] == c.mem[c.maxLines..]
    ensures c.bIdx < BLOCK ==>
              r.mem == c.mem && r.mIdx == c.mIdx && r.bIdx == c.bIdx + 1 &&
              forall j :: 0 <= j < c.bIdx ==> r.buf[j] == c.buf[j]
    ensures c.bIdx == BLOCK ==>
              r.mem == Flush(c).mem && r.mIdx == Flush(c).mIdx && r.bIdx == 1
  {
    var c' := if c.bIdx == BLOCK then Flush(c) else c;
    c'.(buf := c'.buf[c'.bIdx := line], bIdx := c'.bIdx + 1)
  }

  /** A channel is empty exactly when a flush would have nothing to do. */
  lemma EmptyIffFlushNothing(c: Channel)
    requires Valid(c)
    ensures Empty(c) <==> Flush(c) == c
  {
  }

  /** A second flush with no put in between changes nothing. */
  lemma FlushIdempotent(c: Channel)
    requires Valid(c)
    ensures Flush(Flush(c)) == Flush(c)
  {
  }
}
