/**
 Sequences of snap_4KiB_get calls after snap_4KiB_rinit.

 `ReadRef` says, by position alone, which word the k-th get after rinit hands out:
 the region's word while k < maxLines; then, up to the next block boundary, whatever the
 last (short) refill left in the buffer, which is the word one block earlier or, in the
 first block, the buffer's contents before rinit; and the all-ones word from the block
 boundary on. The state machine is proved to agree with it for every ratio of the block
 size to the region size.
 */
module ReadStream {
  import opened Minibuf

  /** Run n gets and collect the words handed out. */
  function Gets(c: Channel, n: nat): (r: (seq<Word>, Channel))
    requires Valid(c)
    ensures |r.0| == n && Valid(r.1)
    ensures r.1.mem == c.mem && r.1.maxLines == c.maxLines && c.mIdx <= r.1.mIdx
    decreases n
  {
    if n == 0 then ([], c)
    else
      var f := Get(c);
      var (ws, c') := Gets(f.next, n - 1);
      ([f.line] + ws, c')
  }

  /** The first block boundary at or past m. */
  function RoundUp(m: nat): (r: nat)
    ensures r % BLOCK == 0 && m <= r < m + BLOCK
  {
    ((m + BLOCK - 1) / BLOCK) * BLOCK
  }

  /** The word the k-th get (counting from 0) after rinit hands out, given the memory,
      the region size m and the buffer's contents buf0 before rinit. */
  function ReadRef(mem: seq<Word>, m: nat, buf0: seq<Word>, k: nat): Word
    requires m <= |mem| && |buf0| == BLOCK
  {
    if k < m then mem[k]
    else if k < RoundUp(m) then (if k >= BLOCK then mem[k - BLOCK] else buf0[k])
    else ALL_ONES
  }

  /** The word at offset j of the buffer once it holds the block that starts at b: the
      region's word if the last refill reached it, otherwise what the refill before left
      there (one block earlier, or the buffer's contents before rinit). */
  function BlockWord(mem: seq<Word>, m: nat, buf0: seq<Word>, b: nat, j: nat): Word
    requires m <= |mem| && |buf0| == BLOCK && b < m && j < BLOCK
  {
    if b + j < m then mem[b + j]
    else if b >= BLOCK then mem[b - BLOCK + j]
    else buf0[j]
  }

  /** The channel after k gets from rinit. The buffer holds the block that starts at
      b = k - bIdx, a multiple of BLOCK; before the first refill b is -BLOCK and the buffer
      is untouched. */
  ghost predicate ReadInv(c: Channel, buf0: seq<Word>, k: nat)
  {
    && Valid(c) && |buf0| == BLOCK && 1 <= c.bIdx
    && var b := k - c.bIdx;
    && b % BLOCK == 0
    && if b < 0 then c.mIdx == 0 && c.buf == buf0
       else
         && b < c.maxLines && c.mIdx == Min(b + BLOCK, c.maxLines)
         && forall j :: 0 <= j < BLOCK ==> c.buf[j] == BlockWord(c.mem, c.maxLines, buf0, b, j)
  }

  /** A multiple of BLOCK at or past m is at or past RoundUp(m). */
  lemma BoundaryPastRoundUp(m: nat, k: nat)
    requires k % BLOCK == 0 && m <= k
    ensures RoundUp(m) <= k
  {
    var r := RoundUp(m);
    assert r == (r / BLOCK) * BLOCK && k == (k / BLOCK) * BLOCK;
    assert r / BLOCK <= k / BLOCK;
  }

  /** A block that starts below m ends at or before RoundUp(m). */
  lemma BlockBelowRoundUp(m: nat, b: nat)
    requires b % BLOCK == 0 && b < m
    ensures b + BLOCK <= RoundUp(m)
  {
    var r := RoundUp(m);
    assert r == (r / BLOCK) * BLOCK && b == (b / BLOCK) * BLOCK;
    assert b / BLOCK < r / BLOCK;
  }

  /** The buffered word at offset j of the block at b is what ReadRef says for b + j. */
  lemma BlockWordIsReadRef(mem: seq<Word>, m: nat, buf0: seq<Word>, b: nat, j: nat)
    requires m <= |mem| && |buf0| == BLOCK && b < m && j < BLOCK && b % BLOCK == 0
    ensures BlockWord(mem, m, buf0, b, j) == ReadRef(mem, m, buf0, b + j)
  {
    BlockBelowRoundUp(m, b);
    if b < BLOCK {
      assert b == 0;
    }
  }

  /** An exhausted channel sits exactly at the block boundary RoundUp(maxLines). */
  lemma GetStepExhausted(c: Channel, buf0: seq<Word>, k: nat)
    requires ReadInv(c, buf0, k) && Exhausted(c)
    ensures k == RoundUp(c.maxLines)
  {
    var b := k - BLOCK;
    if b >= 0 {
      BlockBelowRoundUp(c.maxLines, b);
    }
    BoundaryPastRoundUp(c.maxLines, k);
  }

  /** A later refill: the words it does not reach keep the previous block's words. */
  lemma RefillBufferLater(c: Channel, buf0: seq<Word>, b: nat)
    requires Valid(c) && |buf0| == BLOCK && c.bIdx == BLOCK
    requires b < c.maxLines && c.mIdx == b + BLOCK < c.maxLines
    requires forall j :: 0 <= j < BLOCK ==> c.buf[j] == BlockWord(c.mem, c.maxLines, buf0, b, j)
    ensures forall j :: 0 <= j < BLOCK ==>
              Refill(c).buf[j] == BlockWord(c.mem, c.maxLines, buf0, b + BLOCK, j)
  {
    forall j | 0 <= j < BLOCK
      ensures Refill(c).buf[j] == BlockWord(c.mem, c.maxLines, buf0, b + BLOCK, j)
    {
      if b + BLOCK + j >= c.maxLines {
        assert Refill(c).buf[j] == c.buf[j] == BlockWord(c.mem, c.maxLines, buf0, b, j);
      }
    }
  }

  /** After a refill at k, the buffer holds the block that starts at k. */
  lemma RefillBuffer(c: Channel, buf0: seq<Word>, k: nat)
    requires ReadInv(c, buf0, k) && c.bIdx == BLOCK && c.mIdx < c.maxLines
    ensures k == c.mIdx
    ensures forall j :: 0 <= j < BLOCK ==> Refill(c).buf[j] == BlockWord(c.mem, c.maxLines, buf0, k, j)
  {
    var b := k - c.bIdx;
    if b < 0 {
      assert k == 0 && c.buf == buf0;
    } else {
      assert c.mIdx == b + BLOCK;
      RefillBufferLater(c, buf0, b);
    }
  }

  /** A get that refills hands out the region's word at k and starts the block at k. */
  lemma GetStepRefill(c: Channel, buf0: seq<Word>, k: nat)
    requires ReadInv(c, buf0, k) && c.bIdx == BLOCK && !Exhausted(c)
    ensures k < RoundUp(c.maxLines)
    ensures Get(c).line == ReadRef(c.mem, c.maxLines, buf0, k)
    ensures ReadInv(Get(c).next, buf0, k + 1)
  {
    RefillBuffer(c, buf0, k);
    var c' := Get(c).next;
    assert c' == Refill(c).(bIdx := 1);
    assert (k + 1 - c'.bIdx) % BLOCK == 0 by {
      assert k + 1 - c'.bIdx == (k - BLOCK) + BLOCK;
    }
  }

  /** A get from a partly used buffer hands out the buffered word, which is ReadRef at k. */
  lemma GetStepBuffered(c: Channel, buf0: seq<Word>, k: nat)
    requires ReadInv(c, buf0, k) && c.bIdx < BLOCK
    ensures k < RoundUp(c.maxLines)
    ensures Get(c).line == ReadRef(c.mem, c.maxLines, buf0, k)
    ensures ReadInv(Get(c).next, buf0, k + 1)
  {
    var b := k - c.bIdx;
    BlockWordIsReadRef(c.mem, c.maxLines, buf0, b, c.bIdx);
    BlockBelowRoundUp(c.maxLines, b);
  }

  /** One get from the k-th position hands out ReadRef at k and moves to the next position
      (which stays put once the region is exhausted). */
  lemma GetStep(c: Channel, buf0: seq<Word>, k: nat)
    requires ReadInv(c, buf0, k)
    ensures Get(c).line == ReadRef(c.mem, c.maxLines, buf0, k)
    ensures ReadInv(Get(c).next, buf0, if k < RoundUp(c.maxLines) then k + 1 else k)
  {
    if Exhausted(c) {
      GetStepExhausted(c, buf0, k);
    } else if c.bIdx == BLOCK {
      GetStepRefill(c, buf0, k);
    } else {
      GetStepBuffered(c, buf0, k);
    }
  }

  /** Prepending the word at position k to the words from the next position k' on gives
      the words from position k on. */
  lemma PrependNext(mem: seq<Word>, m: nat, buf0: seq<Word>, k: nat, k': nat, line: Word, tail: seq<Word>)
    requires m <= |mem| && |buf0| == BLOCK
    requires k' == if k < RoundUp(m) then k + 1 else k
    requires line == ReadRef(mem, m, buf0, k)
    requires forall i :: 0 <= i < |tail| ==> tail[i] == ReadRef(mem, m, buf0, k' + i)
    ensures forall i :: 0 <= i <= |tail| ==> ([line] + tail)[i] == ReadRef(mem, m, buf0, k + i)
  {
    forall i | 1 <= i <= |tail|
      ensures ([line] + tail)[i] == ReadRef(mem, m, buf0, k + i)
    {
      assert ([line] + tail)[i] == tail[i - 1];
    }
  }

  /** From the k-th position on, n gets hand out ReadRef at k, k+1, ..., k+n-1. */
  lemma {:induction false} GetsFrom(c: Channel, buf0: seq<Word>, k: nat, n: nat)
    requires ReadInv(c, buf0, k)
    ensures forall i :: 0 <= i < n ==> Gets(c, n).0[i] == ReadRef(c.mem, c.maxLines, buf0, k + i)
    decreases n
  {
    if n > 0 {
      var mem, m := c.mem, c.maxLines;
      var k' := if k < RoundUp(m) then k + 1 else k;
      GetStep(c, buf0, k);
      var f := Get(c);
      assert f.next.mem == mem && f.next.maxLines == m;
      GetsFrom(f.next, buf0, k', n - 1);
      var tail := Gets(f.next, n - 1).0;
      PrependNext(mem, m, buf0, k, k', f.line, tail);
      assert Gets(c, n).0 == [f.line] + tail;
    }
  }

  /** After rinit, the k-th get hands out ReadRef at k, for every k. */
  lemma ReadsAfterRInit(c0: Channel, mem: seq<Word>, m: u16, n: nat)
    requires m <= |mem|
    ensures forall k :: 0 <= k < n ==>
              Gets(RInit(c0, mem, m), n).0[k] == ReadRef(mem, m, c0.buf, k)
  {
    GetsFrom(RInit(c0, mem, m), c0.buf, 0, n);
  }

  /** After rinit, the gets hand out the region's words in order, one per call, whatever
      the ratio of the block size to the region size. */
  lemma ReadsInOrder(c0: Channel, mem: seq<Word>, m: u16, n: nat)
    requires m <= |mem|
    ensures Gets(RInit(c0, mem, m), n).0[..Min(n, m)] == mem[..Min(n, m)]
  {
    ReadsAfterRInit(c0, mem, m, n);
  }

  /** After rinit, gets past the region's end hand out leftover buffer contents up to the
      next block boundary, and the all-ones word from there on. */
  lemma ReadsPastEnd(c0: Channel, mem: seq<Word>, m: u16, n: nat)
    requires m <= |mem|
    ensures forall k :: m <= k < n && k < RoundUp(m) ==>
              Gets(RInit(c0, mem, m), n).0[k] == (if k >= BLOCK then mem[k - BLOCK] else c0.buf[k])
    ensures forall k :: RoundUp(m) <= k < n ==> Gets(RInit(c0, mem, m), n).0[k] == ALL_ONES
  {
    ReadsAfterRInit(c0, mem, m, n);
  }

  /** A one-word region: the second get returns what was in the buffer before rinit,
      not the all-ones word. */
  lemma ShortRegionReadsLeftover(c0: Channel, mem: seq<Word>)
    requires 1 <= |mem| && c0.buf[1] != ALL_ONES
    ensures Gets(RInit(c0, mem, 1), 2).0 == [mem[0], c0.buf[1]]
    ensures Gets(RInit(c0, mem, 1), 2).0[1] != ALL_ONES
  {
    ReadsAfterRInit(c0, mem, 1, 2);
  }

  /** Once exhausted, every further get hands out the all-ones word and changes nothing. */
  lemma {:induction false} ExhaustedStays(c: Channel, n: nat)
    requires Valid(c) && Exhausted(c)
    ensures Gets(c, n).1 == c
    ensures forall i :: 0 <= i < n ==> Gets(c, n).0[i] == ALL_ONES
    decreases n
  {
    if n > 0 {
      ExhaustedStays(c, n - 1);
      assert Gets(c, n).0 == [ALL_ONES] + Gets(c, n - 1).0;
    }
  }
}
