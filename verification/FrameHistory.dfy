/**
 Where the frame decoder keeps its last 64 KB of output. The history ends at `dict + dictSize` and may lie in
 the caller's output buffer, in an earlier one that the caller keeps stable, or in the decoder's own
 temporary buffer, which starts at `tob`. All of these are regions of one memory.
 */
module FrameHistory {
  import opened Bytes
  import opened BlockFormat
  import opened BlockCopy

  /** Largest temporary buffer: four megabytes and twice 64 KB. */
  const RESERVED := 0x40_0000 + 2 * KB64

  /** A region that neither overlaps nor touches the temporary buffer. */
  predicate Apart(at: int, size: nat, tob: nat) {
    0 <= at && (at + size < tob || tob + RESERVED < at)
  }

  /** The last `n` bytes of `e`. */
  ghost function LastBytes(e: seq<byte>, n: nat): seq<byte>
    requires n <= |e|
  {
    e[|e| - n..]
  }

  /** The `valid` bytes that end at `dict + dictSize` are the last bytes of `e`. */
  ghost predicate TailAt(s: seq<byte>, dict: int, dictSize: nat, e: seq<byte>, valid: nat) {
    && valid <= dictSize && valid <= |e|
    && (dictSize > 0 ==> 0 <= dict && At(s, dict + dictSize - valid, LastBytes(e, valid)))
  }

  /**
   The history invariant. `e` is what has been handed to the caller, and `pending` decoded bytes are still to
   be flushed: once they are, at least the last 64 KB (or everything) will be in place.
   */
  ghost predicate Hist(s: seq<byte>, tob: nat, maxBuf: nat, dict: int, dictSize: nat, e: seq<byte>, pending: nat,
                       valid: nat) {
    && maxBuf <= RESERVED && tob + RESERVED <= |s|
    && dict + dictSize <= |s|
    && TailAt(s, dict, dictSize, e, valid)
    && (valid + pending >= KB64 || (valid == dictSize == |e|))
    && (dict == tob ==> dictSize <= maxBuf)
    && (dict != tob ==> valid == dictSize && (dictSize > 0 ==> Apart(dict, dictSize, tob)))
  }

  /** While a block is being flushed from `tmpOut`: how the history joins up with it. */
  ghost predicate Joins(tob: nat, dict: int, dictSize: nat, tmpOut: nat, tmpOutStart: nat, before: nat) {
    && tob <= tmpOut
    && (tmpOut - tob == before || (tmpOut - tob >= KB64 && before >= KB64))
    && (dict == tob ==> tob + dictSize == tmpOut + tmpOutStart)
  }

  /** The block in `tmpOut` is the end of everything decoded; `tmpOutStart` bytes of it have been sent. */
  ghost predicate Flushing(s: seq<byte>, tob: nat, maxBuf: nat, tmpOut: nat, size: nat, start: nat, out: seq<byte>,
                           sent: nat) {
    && tob <= tmpOut && tmpOut + size <= tob + maxBuf && maxBuf <= RESERVED
    && start <= size <= |out| && sent + size == |out| + start
    && At(s, tmpOut, LastBytes(out, size))
  }

  /** The part of the caller's buffer filled so far holds the latest output; the free part is not history. */
  ghost predicate InCall(s: seq<byte>, tob: nat, dstStart: nat, dstPtr: nat, dstEnd: nat, e: seq<byte>, dict: int,
                         dictSize: nat) {
    && dstStart <= dstPtr <= dstEnd <= |s| && Apart(dstStart, dstEnd - dstStart, tob)
    && dstPtr - dstStart <= |e| && At(s, dstStart, LastBytes(e, dstPtr - dstStart))
    && (dict != tob && dictSize > 0 ==> dict + dictSize <= dstPtr || dstEnd <= dict)
  }

  // ---------------------------------------------------------------- small facts

  lemma {:induction false} LastConcat(e: seq<byte>, w: seq<byte>, n: nat)
    requires n <= |e|
    ensures |LastBytes(e, n)| == n && LastBytes(e + w, n + |w|) == LastBytes(e, n) + w
  {
  }

  lemma {:induction false} NextPrefix(out: seq<byte>, sent: nat, n: nat)
    requires sent + n <= |out|
    ensures out[..sent] + out[sent..sent + n] == out[..sent + n]
  {
  }

  lemma {:induction false} SliceOfSlice(s: seq<byte>, a: nat, b: nat, c: nat, d: nat)
    requires a <= b <= |s| && c <= d <= b - a
    ensures s[a..b][c..d] == s[a + c..a + d]
  {
    var x, y := s[a..b][c..d], s[a + c..a + d];
    assert |x| == |y| && forall i :: 0 <= i < |x| ==> x[i] == s[a + c + i] == y[i];
  }

  /** A slice of the last bytes of a prefix is a slice of the whole. */
  lemma {:induction false} LastSlice(out: seq<byte>, sent: nat, n: nat, from: nat, end: nat)
    requires n <= sent <= |out| && from <= end <= n
    ensures LastBytes(out[..sent], n)[from..end] == out[sent - n + from..sent - n + end]
  {
    assert LastBytes(out[..sent], n) == out[sent - n..sent];
    SliceOfSlice(out, sent - n, sent, from, end);
  }

  lemma {:induction false} LastOfLast(e: seq<byte>, n: nat, k: nat)
    requires k <= n <= |e|
    ensures LastBytes(e, n)[n - k..n] == LastBytes(e, k)
  {
  }

  /** A stretch in the middle of what stands somewhere. */
  lemma {:induction false} SliceAt(s: seq<byte>, ip: nat, part: seq<byte>, from: nat, end: nat)
    requires At(s, ip, part) && from <= end <= |part|
    ensures At(s, ip + from, part[from..end])
  {
    assert forall k :: 0 <= k < end - from ==> part[from..end][k] == part[from + k];
  }

  lemma {:induction false} ShorterTail(s: seq<byte>, dict: int, dictSize: nat, e: seq<byte>, valid: nat, n: nat)
    requires TailAt(s, dict, dictSize, e, valid) && n <= valid && dictSize > 0
    ensures At(s, dict + dictSize - n, LastBytes(e, n))
  {
    SliceAt(s, dict + dictSize - valid, LastBytes(e, valid), valid - n, valid);
    LastOfLast(e, valid, n);
  }

  /** New bytes directly behind the history extend it. */
  lemma {:induction false} ExtendTail(s: seq<byte>, dict: int, dictSize: nat, e: seq<byte>, valid: nat, w: seq<byte>)
    requires TailAt(s, dict, dictSize, e, valid) && 0 <= dict && At(s, dict + dictSize, w)
    ensures TailAt(s, dict, dictSize + |w|, e + w, valid + |w|)
  {
    LastConcat(e, w, valid);
    hide At, LastBytes;
    if dictSize > 0 {
      AtJoin(s, dict + dictSize - valid, LastBytes(e, valid), w);
    } else {
      assert LastBytes(e, 0) + w == w;
    }
  }

  /** What the invariant is for: the last 64 KB of the output, or all of it, end at `dict + dictSize`. */
  lemma {:induction false} TailIsThere(s: seq<byte>, tob: nat, maxBuf: nat, dict: int, dictSize: nat, e: seq<byte>,
                                       valid: nat, k: nat)
    requires Hist(s, tob, maxBuf, dict, dictSize, e, 0, valid) && k == Min(KB64, |e|)
    ensures k > 0 ==> 0 <= dict && k <= dictSize && At(s, dict + dictSize - k, LastBytes(e, k))
  {
    if k > 0 {
      ShorterTail(s, dict, dictSize, e, valid, k);
    }
  }

  // ---------------------------------------------------------------- keeping history in the temporary buffer

  /** How many bytes of history are copied in front of a block of the given size. */
  function CopySize(preserveSize: nat, tmpOutSize: nat): nat {
    if tmpOutSize > KB64 then 0 else Min(KB64 - tmpOutSize, preserveSize)
  }

  /** They are there to be copied, and they are what came before the block. */
  lemma {:induction false} SaveSource(s: seq<byte>, tob: nat, maxBuf: nat, dict: int, dictSize: nat, tmpOut: nat,
                                      size: nat, start: nat, out: seq<byte>, sent: nat, k: nat)
    requires sent <= |out| && dict != tob && tob <= tmpOut && k == CopySize(tmpOut - tob, size)
    requires Hist(s, tob, maxBuf, dict, dictSize, out[..sent], |out| - sent, dictSize)
    requires start <= size <= |out| && sent + size == |out| + start
    requires Joins(tob, dict, dictSize, tmpOut, start, |out| - size)
    ensures k + size <= |out| && k <= tmpOut - tob
    ensures k + size >= KB64 || k == tmpOut - tob == |out| - size
    ensures k > 0 ==> dictSize > 0 && k + start <= dictSize
    ensures k > 0 ==> At(s, dict + dictSize - start - k, out[|out| - size - k..|out| - size])
  {
    HistEnough(s, tob, maxBuf, dict, dictSize, out[..sent], |out| - sent, dictSize);
    SaveCount(|out|, sent, tob, dict, dictSize, tmpOut, size, start, k);
    if k > 0 {
      hide Hist, Joins, At;
      ShorterTail(s, dict, dictSize, out[..sent], dictSize, k + start);
      SliceAt(s, dict + dictSize - start - k, LastBytes(out[..sent], k + start), 0, k);
      LastSlice(out, sent, k + start, 0, k);
    }
  }

  lemma {:induction false} HistEnough(s: seq<byte>, tob: nat, maxBuf: nat, dict: int, dictSize: nat, e: seq<byte>,
                                      pending: nat, valid: nat)
    requires Hist(s, tob, maxBuf, dict, dictSize, e, pending, valid)
    ensures valid <= dictSize && valid <= |e| && (valid + pending >= KB64 || valid == dictSize == |e|)
            && TailAt(s, dict, dictSize, e, valid)
  {
  }

  /** The same as numbers. */
  lemma {:induction false} SaveCount(total: nat, sent: nat, tob: nat, dict: int, dictSize: nat, tmpOut: nat, size: nat,
                                     start: nat, k: nat)
    requires sent <= total && dict != tob && tob <= tmpOut && k == CopySize(tmpOut - tob, size)
    requires dictSize <= sent && (dictSize + (total - sent) >= KB64 || dictSize == sent)
    requires start <= size <= total && sent + size == total + start
             && Joins(tob, dict, dictSize, tmpOut, start, total - size)
    ensures k + size <= total && k <= tmpOut - tob
    ensures k + size >= KB64 || k == tmpOut - tob == total - size
    ensures k > 0 ==> dictSize > 0 && k + start <= dictSize
  {
  }

  lemma {:induction false} SaveDone(s0: seq<byte>, s: seq<byte>, tmpOut: nat, size: nat, out: seq<byte>, k: nat)
    requires size + k <= |out| && k <= tmpOut && |s| == |s0| && At(s0, tmpOut, LastBytes(out, size))
    requires At(s, tmpOut - k, out[|out| - size - k..|out| - size])
    requires forall j :: tmpOut <= j < |s| ==> s[j] == s0[j]
    ensures At(s, tmpOut - k, LastBytes(out, k + size))
  {
    var w := out[|out| - size - k..|out| - size];
    AtUnchanged(s0, s, tmpOut, LastBytes(out, size));
    AtJoin(s, tmpOut - k, w, LastBytes(out, size));
    assert w + LastBytes(out, size) == LastBytes(out, k + size);
  }

  lemma {:induction false} MovedAt(s0: seq<byte>, s: seq<byte>, from: nat, at: nat, w: seq<byte>)
    requires At(s0, from, w) && at + |w| <= |s|
    requires forall j :: at <= j < at + |w| ==> s[j] == s0[from + (j - at)]
    ensures At(s, at, w)
  {
  }

  /** Copy a stretch of known content, from outside into the temporary buffer. */
  method MoveIn(mem: array<byte>, at: nat, from: nat, n: nat, ghost w: seq<byte>)
    requires |w| == n && At(mem[..], from, w) && at + n <= mem.Length && (at + n <= from || from + n <= at)
    modifies mem
    ensures At(mem[..], at, w)
    ensures forall j :: 0 <= j < mem.Length && !(at <= j < at + n) ==> mem[j] == old(mem[j])
  {
    ghost var s0 := mem[..];
    MemCopy(mem, at, from, n);
    MovedAt(s0, mem[..], from, at, w);
  }

  /**
   Copy the end of the history before the current block to just in front of `tmpOut`. Together with the block it
   makes 64 KB, unless there is less history than that, in which case all of it is copied.
   */
  method SaveBeforeTmpOut(mem: array<byte>, tob: nat, maxBuf: nat, dict: int, dictSize: nat, tmpOut: nat,
                          tmpOutSize: nat, tmpOutStart: nat, ghost out: seq<byte>, ghost sent: nat)
    returns (k: nat)
    requires sent <= |out| && dict != tob
    requires Hist(mem[..], tob, maxBuf, dict, dictSize, out[..sent], |out| - sent, dictSize)
    requires Flushing(mem[..], tob, maxBuf, tmpOut, tmpOutSize, tmpOutStart, out, sent)
    requires Joins(tob, dict, dictSize, tmpOut, tmpOutStart, |out| - tmpOutSize)
    modifies mem
    ensures k <= tmpOut - tob && k + tmpOutSize <= |out|
    ensures k + tmpOutSize >= KB64 || k == tmpOut - tob == |out| - tmpOutSize
    ensures At(mem[..], tmpOut - k, LastBytes(out, k + tmpOutSize))
    ensures forall j :: 0 <= j < mem.Length && !(tob <= j < tmpOut) ==> mem[j] == old(mem[j])
  {
    hide Joins, LastBytes;
    k := CopySize(tmpOut - tob, tmpOutSize);
    hide CopySize;
    ghost var s0 := mem[..];
    SaveSource(s0, tob, maxBuf, dict, dictSize, tmpOut, tmpOutSize, tmpOutStart, out, sent, k);
    if k > 0 {
      MoveIn(mem, tmpOut - k, dict + dictSize - tmpOutStart - k, k, out[|out| - tmpOutSize - k..|out| - tmpOutSize]);
      SaveDone(s0, mem[..], tmpOut, tmpOutSize, out, k);
    }
  }

  // ---------------------------------------------------------------- LZ4F_updateDict

  /** The new bytes directly follow the history. */
  lemma {:induction false} Continue(s: seq<byte>, tob: nat, maxBuf: nat, dict: int, dictSize: nat, e: seq<byte>,
                                    pending: nat, valid: nat, w: seq<byte>, left: nat)
    requires Hist(s, tob, maxBuf, dict, dictSize, e, pending, valid) && 0 <= dict && At(s, dict + dictSize, w)
    requires pending <= left + |w|
    requires dict == tob ==> dictSize + |w| <= maxBuf
    requires dict != tob && dictSize + |w| > 0 ==> Apart(dict, dictSize + |w|, tob)
    ensures Hist(s, tob, maxBuf, dict, dictSize + |w|, e + w, left, valid + |w|)
  {
    ExtendTail(s, dict, dictSize, e, valid, w);
  }

  /** The caller's buffer alone holds enough history. */
  lemma {:induction false} InBuffer(s: seq<byte>, tob: nat, maxBuf: nat, dstStart: nat, dstPtr: nat, dstEnd: nat,
                                    dict: int, dictSize: nat, e: seq<byte>, w: seq<byte>, left: nat)
    requires InCall(s, tob, dstStart, dstPtr, dstEnd, e, dict, dictSize) && At(s, dstPtr, w) && dstPtr + |w| <= dstEnd
    requires dstPtr - dstStart + |w| >= KB64 && maxBuf <= RESERVED && tob + RESERVED <= |s|
    ensures Hist(s, tob, maxBuf, dstStart, dstPtr - dstStart + |w|, e + w, left, dstPtr - dstStart + |w|)
  {
    var n := dstPtr - dstStart;
    LastConcat(e, w, n);
    AtJoin(s, dstStart, LastBytes(e, n), w);
  }

  /** The output so far, after more of it. */
  lemma {:induction false} AdvanceCall(s: seq<byte>, tob: nat, dstStart: nat, dstPtr: nat, dstEnd: nat, dict: int,
                                       dictSize: nat, e: seq<byte>, w: seq<byte>, d: int, size: nat)
    requires InCall(s, tob, dstStart, dstPtr, dstEnd, e, dict, dictSize) && At(s, dstPtr, w) && dstPtr + |w| <= dstEnd
    requires d != tob && size > 0 ==> d + size <= dstPtr + |w| || dstEnd <= d
    ensures InCall(s, tob, dstStart, dstPtr + |w|, dstEnd, e + w, d, size)
  {
    var n := dstPtr - dstStart;
    LastConcat(e, w, n);
    AtJoin(s, dstStart, LastBytes(e, n), w);
  }

  /** After saving in front of the block: the temporary buffer holds the history. */
  lemma {:induction false} SavedHist(s: seq<byte>, tob: nat, maxBuf: nat, tmpOut: nat, size: nat, start: nat, k: nat,
                                     out: seq<byte>, sent: nat)
    requires tob <= tmpOut && tmpOut + size <= tob + maxBuf && maxBuf <= RESERVED && tob + RESERVED <= |s|
    requires start <= size <= |out| && sent + size == |out| + start
    requires k <= tmpOut - tob && k + size <= |out| && At(s, tmpOut - k, LastBytes(out, k + size))
    requires k + size >= KB64 || k == tmpOut - tob == |out| - size
    ensures Hist(s, tob, maxBuf, tob, tmpOut - tob + start, out[..sent], |out| - sent, k + start)
  {
    SliceAt(s, tmpOut - k, LastBytes(out, k + size), 0, k + start);
    LastSlice(out, |out|, k + size, 0, k + start);
    assert out[..|out|] == out;
    LastSlice(out, sent, k + start, 0, k + start);
  }

  /** Append output to the history that is kept in the temporary buffer, dropping old history if it is full. */
  method AppendToTmp(mem: array<byte>, tob: nat, maxBuf: nat, dictSize: nat, dstPtr: nat, n: nat, ghost e: seq<byte>,
                     ghost valid: nat, ghost w: seq<byte>)
    returns (size: nat, ghost v: nat)
    requires Hist(mem[..], tob, maxBuf, tob, dictSize, e, 0, valid) && maxBuf >= 3 * KB64
    requires |w| == n < KB64 && At(mem[..], dstPtr, w) && Apart(dstPtr, n, tob)
    modifies mem
    ensures Hist(mem[..], tob, maxBuf, tob, size, e + w, 0, v)
    ensures forall j :: 0 <= j < mem.Length && !(tob <= j < tob + maxBuf) ==> mem[j] == old(mem[j])
  {
    size, v := dictSize, valid;
    if dictSize + n > maxBuf {
      size, v := Shrink(mem, tob, maxBuf, dictSize, KB64 - n, e, 0, valid);
    }
    AppendBytes(mem, tob, size, dstPtr, n, e, v, w);
    size, v := size + n, v + n;
  }

  method AppendBytes(mem: array<byte>, tob: nat, size: nat, dstPtr: nat, n: nat, ghost e: seq<byte>, ghost v: nat,
                     ghost w: seq<byte>)
    requires TailAt(mem[..], tob, size, e, v) && size + n <= RESERVED && tob + RESERVED <= mem.Length
    requires |w| == n && At(mem[..], dstPtr, w) && Apart(dstPtr, n, tob)
    modifies mem
    ensures TailAt(mem[..], tob, size + n, e + w, v + n)
    ensures forall j :: 0 <= j < mem.Length && !(tob <= j < tob + size + n) ==> mem[j] == old(mem[j])
  {
    ghost var s0 := mem[..];
    MoveIn(mem, tob + size, dstPtr, n, w);
    if size > 0 {
      AtUnchanged(s0, mem[..], tob + size - v, LastBytes(e, v));
    }
    ExtendTail(mem[..], tob, size, e, v, w);
  }

  /** Keep only the last `keep` bytes of the history in the temporary buffer. */
  method Shrink(mem: array<byte>, tob: nat, maxBuf: nat, dictSize: nat, keep: nat, ghost e: seq<byte>,
                ghost pending: nat, ghost valid: nat)
    returns (size: nat, ghost v: nat)
    requires Hist(mem[..], tob, maxBuf, tob, dictSize, e, pending, valid) && pending == 0 && 2 * keep <= dictSize
             && 0 < keep <= KB64
    modifies mem
    ensures size == v == keep <= |e| && TailAt(mem[..], tob, keep, e, keep)
    ensures forall j :: 0 <= j < mem.Length && !(tob <= j < tob + keep) ==> mem[j] == old(mem[j])
  {
    ShorterTail(mem[..], tob, dictSize, e, valid, keep);
    MoveIn(mem, tob, tob + dictSize - keep, keep, LastBytes(e, keep));
    size, v := keep, keep;
  }

  /** Bring history from elsewhere and the new output together in the temporary buffer. */
  method JoinInTmp(mem: array<byte>, tob: nat, maxBuf: nat, dict: int, dictSize: nat, dstPtr: nat, n: nat,
                   ghost e: seq<byte>, ghost w: seq<byte>)
    returns (size: nat)
    requires Hist(mem[..], tob, maxBuf, dict, dictSize, e, 0, dictSize) && dict != tob && dictSize > 0
             && maxBuf >= 3 * KB64
    requires |w| == n < KB64 && At(mem[..], dstPtr, w) && Apart(dstPtr, n, tob)
    modifies mem
    ensures Hist(mem[..], tob, maxBuf, tob, size, e + w, 0, size)
    ensures forall j :: 0 <= j < mem.Length && !(tob <= j < tob + maxBuf) ==> mem[j] == old(mem[j])
  {
    var keep := Min(KB64 - n, dictSize);
    ShorterTail(mem[..], dict, dictSize, e, dictSize, keep);
    HistEnough(mem[..], tob, maxBuf, dict, dictSize, e, 0, dictSize);
    assert Apart(dict, dictSize, tob) && dict + dictSize <= mem.Length && tob + RESERVED <= mem.Length
           && maxBuf <= RESERVED;
    hide Hist, TailAt;
    JoinPieces(mem, tob, dict + dictSize - keep, keep, dstPtr, n, e, w);
    size := keep + n;
    JoinedHist(mem[..], tob, maxBuf, size, e + w);
  }

  /** Two pieces, one behind the other, at the start of the temporary buffer. */
  method JoinPieces(mem: array<byte>, tob: nat, from: nat, keep: nat, dstPtr: nat, n: nat, ghost e: seq<byte>,
                    ghost w: seq<byte>)
    requires keep <= |e| && keep + n <= KB64 && tob + RESERVED <= mem.Length && |w| == n
    requires At(mem[..], from, LastBytes(e, keep)) && Apart(from, keep, tob)
    requires At(mem[..], dstPtr, w) && Apart(dstPtr, n, tob)
    modifies mem
    ensures At(mem[..], tob, LastBytes(e + w, keep + n))
    ensures forall j :: 0 <= j < mem.Length && !(tob <= j < tob + keep + n) ==> mem[j] == old(mem[j])
  {
    ghost var s0 := mem[..];
    MoveIn(mem, tob, from, keep, LastBytes(e, keep));
    ghost var s1 := mem[..];
    AtUnchanged(s0, s1, dstPtr, w);
    MoveIn(mem, tob + keep, dstPtr, n, w);
    AtUnchanged(s1, mem[..], tob, LastBytes(e, keep));
    AtJoin(mem[..], tob, LastBytes(e, keep), w);
    LastConcat(e, w, keep);
  }

  lemma {:induction false} JoinedHist(s: seq<byte>, tob: nat, maxBuf: nat, size: nat, e: seq<byte>)
    requires size <= |e| && At(s, tob, LastBytes(e, size)) && (size >= KB64 || size == |e|)
    requires size <= maxBuf <= RESERVED && tob + RESERVED <= |s|
    ensures Hist(s, tob, maxBuf, tob, size, e, 0, size)
  {
  }

  /** Both invariants: the history, and the caller's buffer. */
  ghost predicate Kept(s: seq<byte>, tob: nat, maxBuf: nat, dict: int, dictSize: nat, e: seq<byte>, pending: nat,
                       valid: nat, dstStart: nat, dstPtr: nat, dstEnd: nat) {
    && Hist(s, tob, maxBuf, dict, dictSize, e, pending, valid)
    && InCall(s, tob, dstStart, dstPtr, dstEnd, e, dict, dictSize)
  }

  /** History that ends where the new output starts simply grows. */
  lemma {:induction false} GrowInDst(s: seq<byte>, tob: nat, maxBuf: nat, dict0: int, dict: int, dictSize: nat,
                                     e: seq<byte>, pending: nat, valid: nat, dstStart: nat, dstPtr: nat, dstEnd: nat,
                                     w: seq<byte>, left: nat)
    requires Kept(s, tob, maxBuf, dict0, dictSize, e, pending, valid, dstStart, dstPtr, dstEnd)
    requires At(s, dstPtr, w) && dstPtr + |w| <= dstEnd && pending <= left + |w|
    requires dict == (if dictSize == 0 then dstPtr else dict0) && dict + dictSize == dstPtr
    ensures dict != tob
    ensures Kept(s, tob, maxBuf, dict, dictSize + |w|, e + w, left, valid + |w|, dstStart, dstPtr + |w|, dstEnd)
  {
    Continue(s, tob, maxBuf, dict, dictSize, e, pending, valid, w, left);
    AdvanceCall(s, tob, dstStart, dstPtr, dstEnd, dict0, dictSize, e, w, dict, dictSize + |w|);
  }

  /** The caller's buffer has become large enough to serve as the history. */
  lemma {:induction false} SwitchToDst(s: seq<byte>, tob: nat, maxBuf: nat, dict0: int, dictSize: nat, e: seq<byte>,
                                       pending: nat, valid: nat, dstStart: nat, dstPtr: nat, dstEnd: nat, w: seq<byte>,
                                       left: nat)
    requires Kept(s, tob, maxBuf, dict0, dictSize, e, pending, valid, dstStart, dstPtr, dstEnd)
    requires At(s, dstPtr, w) && dstPtr + |w| <= dstEnd && dstPtr - dstStart + |w| >= KB64
    ensures var n := dstPtr - dstStart + |w|;
            Kept(s, tob, maxBuf, dstStart, n, e + w, left, n, dstStart, dstPtr + |w|, dstEnd)
  {
    InBuffer(s, tob, maxBuf, dstStart, dstPtr, dstEnd, dict0, dictSize, e, w, left);
    AdvanceCall(s, tob, dstStart, dstPtr, dstEnd, dict0, dictSize, e, w, dstStart, dstPtr - dstStart + |w|);
  }

  /** Changes inside the temporary buffer do not touch the caller's. */
  lemma {:induction false} CallStays(s0: seq<byte>, s: seq<byte>, tob: nat, maxBuf: nat, dstStart: nat, dstPtr: nat,
                                     dstEnd: nat, e: seq<byte>, size: nat)
    requires InCall(s0, tob, dstStart, dstPtr, dstEnd, e, tob, 0) && |s| == |s0| && maxBuf <= RESERVED
    requires forall j :: 0 <= j < |s| && !(tob <= j < tob + maxBuf) ==> s[j] == s0[j]
    ensures InCall(s, tob, dstStart, dstPtr, dstEnd, e, tob, size)
  {
    AtUnchanged(s0, s, dstStart, LastBytes(e, dstPtr - dstStart));
  }

  lemma {:induction false} HistShape(s: seq<byte>, tob: nat, maxBuf: nat, dict: int, dictSize: nat, e: seq<byte>,
                                     pending: nat, valid: nat)
    requires Hist(s, tob, maxBuf, dict, dictSize, e, pending, valid)
    ensures maxBuf <= RESERVED && tob + RESERVED <= |s| && dict + dictSize <= |s|
    ensures dict == tob ==> dictSize <= maxBuf
    ensures dict != tob ==> valid == dictSize
  {
  }

  lemma {:induction false} DstApart(s: seq<byte>, tob: nat, dstStart: nat, dstPtr: nat, dstEnd: nat, e: seq<byte>,
                                    dict: int, dictSize: nat, n: nat)
    requires InCall(s, tob, dstStart, dstPtr, dstEnd, e, dict, dictSize) && dstPtr + n <= dstEnd
    ensures Apart(dstPtr, n, tob)
  {
  }

  lemma {:induction false} CallShape(s: seq<byte>, tob: nat, dstStart: nat, dstPtr: nat, dstEnd: nat, e: seq<byte>,
                                     dict: int, dictSize: nat)
    requires InCall(s, tob, dstStart, dstPtr, dstEnd, e, dict, dictSize)
    ensures dstStart <= dstPtr <= dstEnd <= |s|
  {
  }

  /** Neither continuing nor large enough: the history and the new output go to the temporary buffer. */
  method MoveToTmp(mem: array<byte>, tob: nat, maxBuf: nat, dict: int, dictSize: nat, dstPtr: nat, n: nat,
                   ghost dstStart: nat, ghost dstEnd: nat, ghost e: seq<byte>, ghost valid: nat, ghost w: seq<byte>)
    returns (size: nat, ghost v: nat)
    requires Kept(mem[..], tob, maxBuf, dict, dictSize, e, 0, valid, dstStart, dstPtr, dstEnd) && maxBuf >= 3 * KB64
    requires |w| == n < KB64 && At(mem[..], dstPtr, w) && dstPtr + n <= dstEnd && dictSize > 0
    modifies mem
    ensures Kept(mem[..], tob, maxBuf, tob, size, e + w, 0, v, dstStart, dstPtr + n, dstEnd)
    ensures forall j :: 0 <= j < mem.Length && !(tob <= j < tob + maxBuf) ==> mem[j] == old(mem[j])
  {
    HistShape(mem[..], tob, maxBuf, dict, dictSize, e, 0, valid);
    DstApart(mem[..], tob, dstStart, dstPtr, dstEnd, e, dict, dictSize, n);
    hide Hist, InCall, At, Apart;
    AdvanceCall(mem[..], tob, dstStart, dstPtr, dstEnd, dict, dictSize, e, w, tob, 0);
    ghost var s0 := mem[..];
    if dict == tob {
      size, v := AppendToTmp(mem, tob, maxBuf, dictSize, dstPtr, n, e, valid, w);
    } else {
      size := JoinInTmp(mem, tob, maxBuf, dict, dictSize, dstPtr, n, e, w);
      v := size;
    }
    CallStays(s0, mem[..], tob, maxBuf, dstStart, dstPtr + n, dstEnd, e + w, size);
  }

  /** LZ4F_updateDict for output that was written straight to the caller's buffer. */
  method UpdateDict(mem: array<byte>, tob: nat, maxBuf: nat, dict0: int, dictSize: nat, dstPtr: nat, n: nat,
                    dstStart: nat, ghost dstEnd: nat, ghost e: seq<byte>, ghost valid: nat, ghost w: seq<byte>)
    returns (dict: int, size: nat, ghost v: nat)
    requires Kept(mem[..], tob, maxBuf, dict0, dictSize, e, 0, valid, dstStart, dstPtr, dstEnd) && maxBuf >= 3 * KB64
    requires |w| == n && At(mem[..], dstPtr, w) && dstPtr + n <= dstEnd
    modifies mem
    ensures Kept(mem[..], tob, maxBuf, dict, size, e + w, 0, v, dstStart, dstPtr + n, dstEnd)
    ensures forall j :: 0 <= j < mem.Length && !(tob <= j < tob + maxBuf) ==> mem[j] == old(mem[j])
  {
    hide Hist, InCall, At;
    CallShape(mem[..], tob, dstStart, dstPtr, dstEnd, e, dict0, dictSize);
    hide Kept;
    dict := if dictSize == 0 then dstPtr else dict0;
    if dict + dictSize == dstPtr {
      GrowInDst(mem[..], tob, maxBuf, dict0, dict, dictSize, e, 0, valid, dstStart, dstPtr, dstEnd, w, 0);
      size, v := dictSize + n, valid + n;
    } else if dstPtr - dstStart + n >= KB64 {
      SwitchToDst(mem[..], tob, maxBuf, dict0, dictSize, e, 0, valid, dstStart, dstPtr, dstEnd, w, 0);
      dict, size := dstStart, dstPtr - dstStart + n;
      v := size;
    } else {
      size, v := MoveToTmp(mem, tob, maxBuf, dict, dictSize, dstPtr, n, dstStart, dstEnd, e, valid, w);
      dict := tob;
    }
  }

  /** The state while a block is being flushed. */
  ghost predicate KeptFlushing(s: seq<byte>, tob: nat, maxBuf: nat, dict: int, dictSize: nat, out: seq<byte>, sent: nat,
                               valid: nat, tmpOut: nat, size: nat, start: nat) {
    && sent <= |out|
    && Hist(s, tob, maxBuf, dict, dictSize, out[..sent], |out| - sent, valid)
    && Flushing(s, tob, maxBuf, tmpOut, size, start, out, sent)
    && Joins(tob, dict, dictSize, tmpOut, start, |out| - size)
  }

  /** History elsewhere moves in front of the block, of which `start` bytes will have been sent. */
  method SaveWithinTmp(mem: array<byte>, tob: nat, maxBuf: nat, dict: int, dictSize: nat, tmpOut: nat, tmpOutSize: nat,
                       tmpOutStart: nat, ghost out: seq<byte>, ghost sent: nat, ghost n: nat)
    returns (ghost v: nat)
    requires KeptFlushing(mem[..], tob, maxBuf, dict, dictSize, out, sent, dictSize, tmpOut, tmpOutSize, tmpOutStart)
    requires dict != tob && tmpOutStart + n <= tmpOutSize
    modifies mem
    ensures KeptFlushing(mem[..], tob, maxBuf, tob, tmpOut - tob + tmpOutStart + n, out, sent + n, v, tmpOut,
                         tmpOutSize, tmpOutStart + n)
    ensures forall j :: 0 <= j < mem.Length && !(tob <= j < tob + maxBuf) ==> mem[j] == old(mem[j])
  {
    ghost var s0 := mem[..];
    var k := SaveBeforeTmpOut(mem, tob, maxBuf, dict, dictSize, tmpOut, tmpOutSize, tmpOutStart, out, sent);
    v := k + tmpOutStart + n;
    SavedHist(mem[..], tob, maxBuf, tmpOut, tmpOutSize, tmpOutStart + n, k, out, sent + n);
    AtUnchanged(s0, mem[..], tmpOut, LastBytes(out, tmpOutSize));
  }

  /** Flushed bytes that follow the history inside the temporary buffer extend it there. */
  lemma {:induction false} GrowInTmp(s: seq<byte>, tob: nat, maxBuf: nat, dictSize: nat, out: seq<byte>, sent: nat,
                                     valid: nat, tmpOut: nat, size: nat, start: nat, n: nat)
    requires KeptFlushing(s, tob, maxBuf, tob, dictSize, out, sent, valid, tmpOut, size, start) && start + n <= size
    ensures KeptFlushing(s, tob, maxBuf, tob, dictSize + n, out, sent + n, valid + n, tmpOut, size, start + n)
  {
    var w := out[sent..sent + n];
    SliceAt(s, tmpOut, LastBytes(out, size), start, start + n);
    assert out[..|out|] == out;
    LastSlice(out, |out|, size, start, start + n);
    Continue(s, tob, maxBuf, tob, dictSize, out[..sent], |out| - sent, valid, w, |out| - sent - n);
    NextPrefix(out, sent, n);
  }

  /** History in the caller's buffer while a block is being flushed. */
  lemma {:induction false} FlushToDst(s: seq<byte>, tob: nat, maxBuf: nat, dict0: int, size0: nat, dict: int,
                                      dictSize: nat, out: seq<byte>, sent: nat, valid0: nat, valid: nat, tmpOut: nat,
                                      size: nat, start: nat, n: nat)
    requires KeptFlushing(s, tob, maxBuf, dict0, size0, out, sent, valid0, tmpOut, size, start) && start + n <= size
             && dict != tob
    requires Hist(s, tob, maxBuf, dict, dictSize, out[..sent + n], |out| - sent - n, valid)
    ensures KeptFlushing(s, tob, maxBuf, dict, dictSize, out, sent + n, valid, tmpOut, size, start + n)
  {
  }

  lemma {:induction false} FlushShape(s: seq<byte>, tob: nat, maxBuf: nat, dict: int, dictSize: nat, out: seq<byte>,
                                      sent: nat, valid: nat, tmpOut: nat, size: nat, start: nat)
    requires KeptFlushing(s, tob, maxBuf, dict, dictSize, out, sent, valid, tmpOut, size, start)
    ensures tob <= tmpOut && maxBuf <= RESERVED && sent + size == |out| + start && (dict != tob ==> valid == dictSize)
  {
  }

  /** LZ4F_updateDict for output that was flushed from `tmpOut`. */
  method UpdateDictWithinTmp(mem: array<byte>, tob: nat, maxBuf: nat, dict0: int, dictSize: nat, dstPtr: nat, n: nat,
                             dstStart: nat, tmpOut: nat, tmpOutSize: nat, tmpOutStart: nat, ghost dstEnd: nat,
                             ghost out: seq<byte>, ghost sent: nat, ghost valid: nat)
    returns (dict: int, size: nat, ghost v: nat)
    requires tmpOutStart + n <= tmpOutSize
    requires KeptFlushing(mem[..], tob, maxBuf, dict0, dictSize, out, sent, valid, tmpOut, tmpOutSize, tmpOutStart)
    requires InCall(mem[..], tob, dstStart, dstPtr, dstEnd, out[..sent], dict0, dictSize)
    requires At(mem[..], dstPtr, out[sent..sent + n]) && dstPtr + n <= dstEnd
    modifies mem
    ensures KeptFlushing(mem[..], tob, maxBuf, dict, size, out, sent + n, v, tmpOut, tmpOutSize, tmpOutStart + n)
    ensures InCall(mem[..], tob, dstStart, dstPtr + n, dstEnd, out[..sent + n], dict, size)
    ensures forall j :: 0 <= j < mem.Length && !(tob <= j < tob + maxBuf) ==> mem[j] == old(mem[j])
  {
    hide Hist, Flushing, Joins, At;
    CallShape(mem[..], tob, dstStart, dstPtr, dstEnd, out[..sent], dict0, dictSize);
    FlushShape(mem[..], tob, maxBuf, dict0, dictSize, out, sent, valid, tmpOut, tmpOutSize, tmpOutStart);
    hide InCall;
    ghost var s0, e, w, left := mem[..], out[..sent], out[sent..sent + n], |out| - sent - n;
    NextPrefix(out, sent, n);
    dict := if dictSize == 0 then dstPtr else dict0;
    if dict + dictSize == dstPtr {
      GrowInDst(s0, tob, maxBuf, dict0, dict, dictSize, e, |out| - sent, valid, dstStart, dstPtr, dstEnd, w, left);
      size, v := dictSize + n, valid + n;
      FlushToDst(s0, tob, maxBuf, dict0, dictSize, dict, size, out, sent, valid, v, tmpOut, tmpOutSize, tmpOutStart, n);
    } else if dstPtr - dstStart + n >= KB64 {
      SwitchToDst(s0, tob, maxBuf, dict0, dictSize, e, |out| - sent, valid, dstStart, dstPtr, dstEnd, w, left);
      dict, size := dstStart, dstPtr - dstStart + n;
      v := size;
      FlushToDst(s0, tob, maxBuf, dict0, dictSize, dict, size, out, sent, valid, v, tmpOut, tmpOutSize, tmpOutStart, n);
    } else {
      dict, size, v := WithinTmp(mem, tob, maxBuf, dict0, dictSize, dstPtr, n, tmpOut, tmpOutSize, tmpOutStart,
                                 dstStart, dstEnd, out, sent, valid);
    }
  }

  /** Its remaining cases, after which the history lies in the temporary buffer. */
  method WithinTmp(mem: array<byte>, tob: nat, maxBuf: nat, dict0: int, dictSize: nat, ghost dstPtr: nat, n: nat,
                   tmpOut: nat, tmpOutSize: nat, tmpOutStart: nat, ghost dstStart: nat, ghost dstEnd: nat,
                   ghost out: seq<byte>, ghost sent: nat, ghost valid: nat)
    returns (dict: int, size: nat, ghost v: nat)
    requires tmpOutStart + n <= tmpOutSize
    requires KeptFlushing(mem[..], tob, maxBuf, dict0, dictSize, out, sent, valid, tmpOut, tmpOutSize, tmpOutStart)
    requires InCall(mem[..], tob, dstStart, dstPtr, dstEnd, out[..sent], dict0, dictSize)
    requires At(mem[..], dstPtr, out[sent..sent + n]) && dstPtr + n <= dstEnd
    modifies mem
    ensures dict == tob && KeptFlushing(mem[..], tob, maxBuf, dict, size, out, sent + n, v, tmpOut, tmpOutSize,
                                        tmpOutStart + n)
    ensures InCall(mem[..], tob, dstStart, dstPtr + n, dstEnd, out[..sent + n], dict, size)
    ensures forall j :: 0 <= j < mem.Length && !(tob <= j < tob + maxBuf) ==> mem[j] == old(mem[j])
  {
    hide Hist, Flushing, Joins, At;
    FlushShape(mem[..], tob, maxBuf, dict0, dictSize, out, sent, valid, tmpOut, tmpOutSize, tmpOutStart);
    hide InCall;
    ghost var s0 := mem[..];
    NextPrefix(out, sent, n);
    AdvanceCall(s0, tob, dstStart, dstPtr, dstEnd, dict0, dictSize, out[..sent], out[sent..sent + n], tob, 0);
    if dict0 == tob {
      GrowInTmp(s0, tob, maxBuf, dictSize, out, sent, valid, tmpOut, tmpOutSize, tmpOutStart, n);
      size, v := dictSize + n, valid + n;
    } else {
      v := SaveWithinTmp(mem, tob, maxBuf, dict0, dictSize, tmpOut, tmpOutSize, tmpOutStart, out, sent, n);
      size := tmpOut - tob + tmpOutStart + n;
    }
    dict := tob;
    CallStays(s0, mem[..], tob, maxBuf, dstStart, dstPtr + n, dstEnd, out[..sent + n], size);
  }
}
