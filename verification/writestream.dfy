/**
 Sequences of snap_4KiB_put calls after snap_4KiB_winit, closed by snap_4KiB_flush, and
 the round trip back through snap_4KiB_rinit and snap_4KiB_get.
 */
module WriteStream {
  import opened Minibuf
  import opened ReadStream

  /** Put the words of ws, in order. */
  function Puts(c: Channel, ws: seq<Word>): (r: Channel)
    requires Valid(c)
    ensures Valid(r) && r.maxLines == c.maxLines && |r.mem| == |c.mem|
    ensures r.mem[c.maxLines..] == c.mem[c.maxLines..]
    decreases |ws|
  {
    if |ws| == 0 then c else Put(Puts(c, ws[..|ws| - 1]), ws[|ws| - 1])
  }

  /** The channel after winit on mem and the puts of ws. The words already pushed out of
      the buffer are the first f = |ws| - bIdx; of those, the first min(f, maxLines) are in
      memory, the rest were dropped. The buffer holds the words put since. */
  ghost predicate WriteInv(c: Channel, mem: seq<Word>, ws: seq<Word>)
  {
    && Valid(c) && |c.mem| == |mem| && c.bIdx <= |ws|
    && var f := |ws| - c.bIdx;
    && c.mIdx == Min(f, c.maxLines)
    && (forall i :: 0 <= i < |mem| ==> c.mem[i] == if i < c.mIdx then ws[i] else mem[i])
    && (forall j :: 0 <= j < c.bIdx ==> c.buf[j] == ws[f + j])
  }

  /** A flush in the middle of the stream keeps the invariant and leaves nothing buffered. */
  lemma FlushStep(c: Channel, mem: seq<Word>, ws: seq<Word>)
    requires WriteInv(c, mem, ws)
    ensures WriteInv(Flush(c), mem, ws)
    ensures Flush(c).mIdx == Min(|ws|, c.maxLines)
  {
    var f := |ws| - c.bIdx;
    var r := Flush(c);
    forall i | 0 <= i < |mem|
      ensures r.mem[i] == if i < r.mIdx then ws[i] else mem[i]
    {
      if c.mIdx <= i < r.mIdx {
        assert f <= c.maxLines && c.mIdx == f;
        assert r.mem[i] == c.buf[i - f] == ws[i];
      }
    }
  }

  /** A put into a full buffer flushes it first; the word starts a fresh buffer. */
  lemma PutStepFull(c: Channel, mem: seq<Word>, ws: seq<Word>, w: Word)
    requires WriteInv(c, mem, ws) && c.bIdx == BLOCK
    ensures WriteInv(Put(c, w), mem, ws + [w])
  {
    var ws' := ws + [w];
    FlushStep(c, mem, ws);
    var r := Put(c, w);
    assert r.buf[0] == w && r.bIdx == 1;
    forall i | 0 <= i < |mem|
      ensures r.mem[i] == if i < r.mIdx then ws'[i] else mem[i]
    {
      if i < r.mIdx {
        assert ws'[i] == ws[i];
      }
    }
  }

  /** A put into a buffer with room appends the word to the buffer. */
  lemma PutStepRoom(c: Channel, mem: seq<Word>, ws: seq<Word>, w: Word)
    requires WriteInv(c, mem, ws) && c.bIdx < BLOCK
    ensures WriteInv(Put(c, w), mem, ws + [w])
  {
    var ws' := ws + [w];
    var r := Put(c, w);
    var f := |ws| - c.bIdx;
    forall j | 0 <= j < r.bIdx
      ensures r.buf[j] == ws'[f + j]
    {
      if j < c.bIdx {
        assert r.buf[j] == c.buf[j] == ws[f + j];
      }
    }
    forall i | 0 <= i < |mem|
      ensures r.mem[i] == if i < r.mIdx then ws'[i] else mem[i]
    {
      if i < r.mIdx {
        assert ws'[i] == ws[i];
      }
    }
  }

  /** One put keeps the invariant, with the word appended to the stream. */
  lemma PutStep(c: Channel, mem: seq<Word>, ws: seq<Word>, w: Word)
    requires WriteInv(c, mem, ws)
    ensures WriteInv(Put(c, w), mem, ws + [w])
  {
    if c.bIdx == BLOCK {
      PutStepFull(c, mem, ws, w);
    } else {
      PutStepRoom(c, mem, ws, w);
    }
  }

  /** winit followed by the puts of ws satisfies the invariant. */
  lemma {:induction false} PutsFromWInit(c0: Channel, mem: seq<Word>, m: u16, ws: seq<Word>)
    requires m <= |mem|
    ensures WriteInv(Puts(WInit(c0, mem, m), ws), mem, ws)
    decreases |ws|
  {
    if |ws| > 0 {
      var front := ws[..|ws| - 1];
      PutsFromWInit(c0, mem, m, front);
      PutStep(Puts(WInit(c0, mem, m), front), mem, front, ws[|ws| - 1]);
      assert front + [ws[|ws| - 1]] == ws;
    }
  }

  /** The final flush leaves the words of the stream that fit at the front of memory. */
  lemma FlushedMemory(c: Channel, mem: seq<Word>, ws: seq<Word>)
    requires WriteInv(c, mem, ws)
    ensures Flush(c).mIdx == Min(|ws|, c.maxLines)
    ensures Flush(c).mem == ws[..Min(|ws|, c.maxLines)] + mem[Min(|ws|, c.maxLines)..]
  {
    FlushStep(c, mem, ws);
    var t := Min(|ws|, c.maxLines);
    var r := Flush(c);
    var expected := ws[..t] + mem[t..];
    assert |r.mem| == |expected|;
    forall i | 0 <= i < |mem|
      ensures r.mem[i] == expected[i]
    {
      if i < t {
        assert expected[i] == ws[i];
      } else {
        assert expected[i] == mem[i];
      }
    }
  }

  /** winit, the puts of ws and a final flush leave the first min(|ws|, maxLines) words of
      ws at the front of memory and the rest of memory as it was: words put past maxLines
      are dropped and never land anywhere. */
  lemma WriteThenFlush(c0: Channel, mem: seq<Word>, m: u16, ws: seq<Word>)
    requires m <= |mem|
    ensures Flush(Puts(WInit(c0, mem, m), ws)).mIdx == Min(|ws|, m)
    ensures Flush(Puts(WInit(c0, mem, m), ws)).mem == ws[..Min(|ws|, m)] + mem[Min(|ws|, m)..]
  {
    PutsFromWInit(c0, mem, m, ws);
    FlushedMemory(Puts(WInit(c0, mem, m), ws), mem, ws);
  }

  /** After winit and the puts of ws the channel is empty exactly when nothing was put:
      every put leaves its word pending until the next flush. */
  lemma {:induction false} EmptyAfterPuts(c0: Channel, mem: seq<Word>, m: u16, ws: seq<Word>)
    requires m <= |mem|
    ensures Empty(Puts(WInit(c0, mem, m), ws)) <==> |ws| == 0
  {
    if |ws| > 0 {
      var c := Puts(WInit(c0, mem, m), ws[..|ws| - 1]);
      assert Puts(WInit(c0, mem, m), ws) == Put(c, ws[|ws| - 1]);
    }
  }

  /** Words put once the region is full change nothing that the final flush leaves. */
  lemma ExcessPutsDropped(c0: Channel, mem: seq<Word>, m: u16, ws: seq<Word>, extra: seq<Word>)
    requires m <= |mem| && m <= |ws|
    ensures Flush(Puts(WInit(c0, mem, m), ws + extra)).mem == Flush(Puts(WInit(c0, mem, m), ws)).mem
  {
    var all := ws + extra;
    WriteThenFlush(c0, mem, m, all);
    WriteThenFlush(c0, mem, m, ws);
    assert all[..m] == ws[..m];
  }

  /** Writing ws through winit, puts and flush and then reading the region back through
      rinit and gets hands out the words written, in order, up to maxLines. */
  lemma RoundTrip(c0: Channel, mem: seq<Word>, m: u16, ws: seq<Word>)
    requires m <= |mem|
    ensures var w := Flush(Puts(WInit(c0, mem, m), ws));
            Gets(RInit(w, w.mem, m), |ws|).0[..Min(|ws|, m)] == ws[..Min(|ws|, m)]
  {
    var w := Flush(Puts(WInit(c0, mem, m), ws));
    var t := Min(|ws|, m);
    WriteThenFlush(c0, mem, m, ws);
    ReadsInOrder(w, w.mem, m, |ws|);
    assert w.mem[..t] == ws[..t];
  }
}
