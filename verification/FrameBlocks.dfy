/**
 The stages of the frame decoder that produce output: decoding a block with the history at hand, flushing, and keeping
 the history when a call ends.
 */
module FrameBlocks {
  import opened Bytes
  import opened BlockFormat
  import opened BlockCopy
  import opened BlockAcceptance
  import opened BlockDecoder
  import opened FrameHistory

  // ---------------------------------------------------------------- decoding with the kept history

  /** Two histories that agree on their last 64 KB, or altogether, decode a block to the same bytes. */
  lemma {:induction false} SameDecoding(body: seq<byte>, d: seq<byte>, out: seq<byte>, valid: nat)
    requires valid <= |d| && valid <= |out| && LastBytes(d, valid) == LastBytes(out, valid)
    requires valid >= KB64 || valid == |d| == |out|
    ensures Decode(body, 0, d).Some? <==> Decode(body, 0, out).Some?
    ensures Decode(body, 0, d).Some? ==> |d| <= |Decode(body, 0, d).value|
    ensures Decode(body, 0, d).Some? ==> Decode(body, 0, out) == Some(out + Decode(body, 0, d).value[|d|..])
  {
    var v := LastBytes(d, valid);
    assert d == d[..|d| - valid] + v && out == out[..|out| - valid] + v;
    DecodingBehind(d[..|d| - valid], v, body);
    DecodingBehind(out[..|out| - valid], v, body);
  }

  /** What a block appends depends only on enough history. */
  ghost function Appended(body: seq<byte>, h: seq<byte>): Option<seq<byte>> {
    DecodeExtends(body, 0, h);
    if Decode(body, 0, h).None? then None else Some(Decode(body, 0, h).value[|h|..])
  }

  lemma {:induction false} DecodingBehind(p: seq<byte>, v: seq<byte>, body: seq<byte>)
    requires EnoughHistory(p, v)
    ensures Appended(body, p + v) == Appended(body, v)
    ensures Appended(body, v).Some? ==> Decode(body, 0, p + v) == Some(p + v + Appended(body, v).value)
  {
    TruncatedHistory(p, body, 0, v);
    DecodeExtends(body, 0, v);
    hide Decode;
    if Decode(body, 0, v).Some? {
      var r := Decode(body, 0, v).value;
      assert r == v + r[|v|..];
      assert p + r == p + v + r[|v|..];
    }
  }

  /** What decoding a block into [dst, dst + cap) achieved, as a claim about the reference decoder. */
  ghost predicate BlockDecoded(body: seq<byte>, out: seq<byte>, s: seq<byte>, dst: nat, cap: nat, adjoins: bool,
                               size: nat, n: int) {
    && (n >= 0 <==> AcceptedAt(body, cap, adjoins, size))
    && (n >= 0 ==> n <= cap && dst + n <= |s| && Decode(body, 0, out) == Some(out + s[dst..dst + n]))
    && (n >= 0 ==> AcceptedAt(body, cap, true, |out|))
    && (n < 0 ==> !AcceptsBlock(body, cap, 0, |out|))
  }

  lemma {:induction false} TransferDecoding(body: seq<byte>, d: seq<byte>, out: seq<byte>, valid: nat, s: seq<byte>,
                                            dst: nat, cap: nat, adjoins: bool, size: nat, n: int)
    requires valid <= |d| && valid <= |out| && LastBytes(d, valid) == LastBytes(out, valid)
    requires valid >= KB64 || valid == |d| == |out|
    requires Decoded(body, d, s, dst, cap, ReachOf(adjoins, |d|), ElsewhereOf(adjoins, |d|), n)
    requires |d| == size || (|d| >= 65535 && size >= 65535)
    ensures BlockDecoded(body, out, s, dst, cap, adjoins, size, n)
  {
    SameDecoding(body, d, out, valid);
    NearIsBest(body, cap, adjoins, |d|);
    if !adjoins && |d| != size {
      EnoughElsewhere(body, cap, 0, |d|, size);
    }
    if n >= 0 {
      assert (d + s[dst..dst + n])[|d|..] == s[dst..dst + n];
    } else {
      PlacementDecidesBlock(body, cap, ReachOf(adjoins, |d|), ElsewhereOf(adjoins, |d|), 0, |out|);
    }
  }

  lemma SizeBound(body: seq<byte>, d: seq<byte>, s: seq<byte>, dst: nat, cap: nat, reach: nat, ext: nat, n: int)
    requires Decoded(body, d, s, dst, cap, reach, ext, n)
    ensures n <= cap
  {
  }

  /** Placements that make no difference. */
  lemma {:induction false} SamePlacement(body: seq<byte>, out: seq<byte>, s: seq<byte>, dst: nat, cap: nat,
                                         adjoins: bool, size: nat, adjoins2: bool, size2: nat, n: int)
    requires BlockDecoded(body, out, s, dst, cap, adjoins, size, n)
    requires size == size2 || (size >= 65535 && size2 >= 65535)
    requires adjoins == adjoins2 || size == 0
    ensures BlockDecoded(body, out, s, dst, cap, adjoins2, size2, n)
  {
    if !adjoins && size != size2 {
      EnoughElsewhere(body, cap, 0, size, size2);
    }
  }

  /** LZ4_decompress_safe_usingDict on the history at hand; of a very long one only the last 64 KB are passed. */
  method DecodeWithHistory(mem: array<byte>, tob: nat, maxBuf: nat, dict: int, dictSize: nat, dst: nat, cap: nat,
                           body: seq<byte>, ghost out: seq<byte>, ghost valid: nat)
    returns (n: int)
    requires Hist(mem[..], tob, maxBuf, dict, dictSize, out, 0, valid) && dst + cap <= mem.Length && cap > 0
    requires dictSize > 0 ==> dict + dictSize <= dst || dst + cap <= dict
    modifies mem
    ensures n <= cap && BlockDecoded(body, out, mem[..], dst, cap, dict + dictSize == dst, dictSize, n)
    ensures forall j :: 0 <= j < mem.Length && !(dst <= j < dst + cap) ==> mem[j] == old(mem[j])
  {
    hide Decoded, BlockDecoded;
    var d, size := dict, dictSize;
    ghost var v := valid;
    if dictSize > GB {
      d, size, v := dict + dictSize - KB64, KB64, KB64;
    }
    if size == 0 {
      d := 0;
    }
    ghost var known := mem[..][d..d + size];
    assert LastBytes(known, v) == LastBytes(out, v) by {
      KnownTail(mem[..], dict, dictSize, out, valid, d, size, v);
    }
    n := DecompressUsingDict(body, mem, dst, cap, d, size);
    SizeBound(body, known, mem[..], dst, cap, Reach(dst, d, size), Elsewhere(dst, d, size), n);
    TransferDecoding(body, known, out, v, mem[..], dst, cap, dict + dictSize == dst, dictSize, n);
  }

  lemma {:induction false} KnownTail(s: seq<byte>, dict: int, dictSize: nat, out: seq<byte>, valid: nat, d: nat,
                                     size: nat, v: nat)
    requires TailAt(s, dict, dictSize, out, valid) && v <= valid && v <= size && d + size <= |s|
    requires dictSize > 0 ==> d + size == dict + dictSize
    requires dictSize == 0 ==> size == 0
    ensures LastBytes(s[d..d + size], v) == LastBytes(out, v)
  {
    if dictSize > 0 {
      ShorterTail(s, dict, dictSize, out, valid, v);
    }
  }

  // ---------------------------------------------------------------- what writing elsewhere leaves alone

  lemma {:induction false} HistStays(s0: seq<byte>, s: seq<byte>, tob: nat, maxBuf: nat, dict: int, dictSize: nat,
                                     e: seq<byte>, pending: nat, valid: nat, lo: nat, hi: nat, more: nat)
    requires Hist(s0, tob, maxBuf, dict, dictSize, e, pending, valid) && |s| == |s0| && more >= pending
    requires forall j :: 0 <= j < |s| && !(lo <= j < hi) ==> s[j] == s0[j]
    requires dictSize > 0 ==> dict + dictSize <= lo || hi <= dict
    ensures Hist(s, tob, maxBuf, dict, dictSize, e, more, valid)
  {
    if dictSize > 0 {
      AtUnchanged(s0, s, dict + dictSize - valid, LastBytes(e, valid));
    }
  }

  lemma {:induction false} InCallStays(s0: seq<byte>, s: seq<byte>, tob: nat, dstStart: nat, dstPtr: nat, dstEnd: nat,
                                       e: seq<byte>, dict: int, dictSize: nat, lo: nat, hi: nat)
    requires InCall(s0, tob, dstStart, dstPtr, dstEnd, e, dict, dictSize) && |s| == |s0|
    requires forall j :: 0 <= j < |s| && !(lo <= j < hi) ==> s[j] == s0[j]
    requires dstPtr <= lo || hi <= dstStart
    ensures InCall(s, tob, dstStart, dstPtr, dstEnd, e, dict, dictSize)
  {
    AtUnchanged(s0, s, dstStart, LastBytes(e, dstPtr - dstStart));
  }

  /** History lies outside the free part of the caller's buffer. */
  lemma {:induction false} HistoryNotInFreeDst(s: seq<byte>, tob: nat, maxBuf: nat, dict: int, dictSize: nat,
                                               e: seq<byte>, pending: nat, valid: nat, dstStart: nat, dstPtr: nat,
                                               dstEnd: nat)
    requires Kept(s, tob, maxBuf, dict, dictSize, e, pending, valid, dstStart, dstPtr, dstEnd)
    ensures dictSize > 0 ==> dict + dictSize <= dstPtr || dstEnd <= dict
  {
  }

  // ---------------------------------------------------------------- decoding into the temporary buffer

  /** Make room for a block in the temporary buffer, behind the history or behind the space reserved for it. */
  method PlaceTmpOut(mem: array<byte>, tob: nat, maxBuf: nat, maxBlock: nat, dict: int, dictSize: nat,
                     ghost e: seq<byte>, ghost valid: nat)
    returns (size: nat, tmpOut: nat, ghost v: nat)
    requires Hist(mem[..], tob, maxBuf, dict, dictSize, e, 0, valid) && maxBuf >= maxBlock + 2 * KB64
    modifies mem
    ensures Hist(mem[..], tob, maxBuf, dict, size, e, 0, v) && Joins(tob, dict, size, tmpOut, 0, |e|)
    ensures tmpOut + maxBlock <= tob + maxBuf <= mem.Length && (dict != tob ==> size == dictSize)
    ensures size > 0 ==> dict + size <= tmpOut || tmpOut + maxBlock <= dict
    ensures size == dictSize || (size >= 65535 && dictSize >= 65535)
    ensures (dict + size == tmpOut) == (dict == tob) || size == 0
    ensures forall j :: 0 <= j < mem.Length && !(tob <= j < tob + maxBuf) ==> mem[j] == old(mem[j])
  {
    size, v := dictSize, valid;
    if dict == tob {
      if dictSize > 2 * KB64 {
        size, v := Shrink(mem, tob, maxBuf, dictSize, KB64, e, 0, valid);
      }
      tmpOut := tob + size;
    } else {
      tmpOut := tob + Min(dictSize, KB64);
    }
  }

  /** A block has been decoded behind the history: it is now to be flushed. */
  lemma {:induction false} StartFlushing(s0: seq<byte>, s: seq<byte>, tob: nat, maxBuf: nat, dict: int, dictSize: nat,
                                         out: seq<byte>, valid: nat, tmpOut: nat, cap: nat, n: nat)
    requires Hist(s0, tob, maxBuf, dict, dictSize, out, 0, valid) && Joins(tob, dict, dictSize, tmpOut, 0, |out|)
    requires n <= cap && tmpOut + cap <= tob + maxBuf && |s| == |s0|
    requires forall j :: 0 <= j < |s| && !(tmpOut <= j < tmpOut + cap) ==> s[j] == s0[j]
    ensures KeptFlushing(s, tob, maxBuf, dict, dictSize, out + s[tmpOut..tmpOut + n], |out|, valid, tmpOut, n, 0)
  {
    HistStays(s0, s, tob, maxBuf, dict, dictSize, out, 0, valid, tmpOut, tmpOut + cap, n);
    DecodedBehind(s, tob, maxBuf, tmpOut, out, n);
  }

  lemma {:induction false} DecodedBehind(s: seq<byte>, tob: nat, maxBuf: nat, tmpOut: nat, out: seq<byte>, n: nat)
    requires tob <= tmpOut && tmpOut + n <= tob + maxBuf && maxBuf <= RESERVED && tob + RESERVED <= |s|
    ensures (out + s[tmpOut..tmpOut + n])[..|out|] == out
    ensures Flushing(s, tob, maxBuf, tmpOut, n, 0, out + s[tmpOut..tmpOut + n], |out|)
  {
    assert LastBytes(out + s[tmpOut..tmpOut + n], n) == s[tmpOut..tmpOut + n];
  }

  // ---------------------------------------------------------------- flushing

  /** The bytes still in `tmpOut` that are next. */
  lemma {:induction false} NextBytes(s: seq<byte>, tob: nat, maxBuf: nat, tmpOut: nat, size: nat, start: nat,
                                     out: seq<byte>, sent: nat, n: nat)
    requires Flushing(s, tob, maxBuf, tmpOut, size, start, out, sent) && start + n <= size
    ensures At(s, tmpOut + start, out[sent..sent + n])
  {
    SliceAt(s, tmpOut, LastBytes(out, size), start, start + n);
    assert out[..|out|] == out;
    LastSlice(out, |out|, size, start, start + n);
  }

  lemma {:induction false} FlushingStays(s0: seq<byte>, s: seq<byte>, tob: nat, maxBuf: nat, dict: int, dictSize: nat,
                                         out: seq<byte>, sent: nat, valid: nat, tmpOut: nat, size: nat, start: nat,
                                         lo: nat, hi: nat)
    requires KeptFlushing(s0, tob, maxBuf, dict, dictSize, out, sent, valid, tmpOut, size, start) && |s| == |s0|
    requires forall j :: 0 <= j < |s| && !(lo <= j < hi) ==> s[j] == s0[j]
    requires dictSize > 0 ==> dict + dictSize <= lo || hi <= dict
    requires hi <= tob || tob + maxBuf <= lo
    ensures KeptFlushing(s, tob, maxBuf, dict, dictSize, out, sent, valid, tmpOut, size, start)
  {
    HistStays(s0, s, tob, maxBuf, dict, dictSize, out[..sent], |out| - sent, valid, lo, hi, |out| - sent);
    AtUnchanged(s0, s, tmpOut, LastBytes(out, size));
  }

  /** Move the next bytes of the block to the caller. */
  method MoveNext(mem: array<byte>, tob: nat, maxBuf: nat, dict: int, dictSize: nat, ghost dstStart: nat, dstPtr: nat,
                  ghost dstEnd: nat, tmpOut: nat, tmpOutSize: nat, tmpOutStart: nat, n: nat, ghost out: seq<byte>,
                  ghost sent: nat, ghost valid: nat)
    requires KeptFlushing(mem[..], tob, maxBuf, dict, dictSize, out, sent, valid, tmpOut, tmpOutSize, tmpOutStart)
    requires InCall(mem[..], tob, dstStart, dstPtr, dstEnd, out[..sent], dict, dictSize)
    requires dstPtr + n <= dstEnd && tmpOutStart + n <= tmpOutSize
    modifies mem
    ensures KeptFlushing(mem[..], tob, maxBuf, dict, dictSize, out, sent, valid, tmpOut, tmpOutSize, tmpOutStart)
    ensures InCall(mem[..], tob, dstStart, dstPtr, dstEnd, out[..sent], dict, dictSize)
    ensures sent + n <= |out| && At(mem[..], dstPtr, out[sent..sent + n])
    ensures forall j :: 0 <= j < mem.Length && !(dstPtr <= j < dstPtr + n) ==> mem[j] == old(mem[j])
  {
    hide KeptFlushing, InCall, At, Flushing, Hist, Joins;
    ghost var s0 := mem[..];
    MoveFacts(s0, tob, maxBuf, dict, dictSize, dstStart, dstPtr, dstEnd, tmpOut, tmpOutSize, tmpOutStart, n, out, sent,
              valid);
    MoveIn(mem, dstPtr, tmpOut + tmpOutStart, n, out[sent..sent + n]);
    FlushingStays(s0, mem[..], tob, maxBuf, dict, dictSize, out, sent, valid, tmpOut, tmpOutSize, tmpOutStart, dstPtr,
                  dstPtr + n);
    InCallStays(s0, mem[..], tob, dstStart, dstPtr, dstEnd, out[..sent], dict, dictSize, dstPtr, dstPtr + n);
  }

  /** The bytes to be moved are there, and the place they go to is free. */
  lemma {:induction false} MoveFacts(s: seq<byte>, tob: nat, maxBuf: nat, dict: int, dictSize: nat, dstStart: nat,
                                     dstPtr: nat, dstEnd: nat, tmpOut: nat, tmpOutSize: nat, tmpOutStart: nat, n: nat,
                                     out: seq<byte>, sent: nat, valid: nat)
    requires KeptFlushing(s, tob, maxBuf, dict, dictSize, out, sent, valid, tmpOut, tmpOutSize, tmpOutStart)
    requires InCall(s, tob, dstStart, dstPtr, dstEnd, out[..sent], dict, dictSize)
    requires dstPtr + n <= dstEnd && tmpOutStart + n <= tmpOutSize
    ensures sent + n <= |out| && At(s, tmpOut + tmpOutStart, out[sent..sent + n]) && dstStart <= dstPtr
            && dstPtr + n <= |s|
    ensures dstPtr + n <= tmpOut + tmpOutStart || tmpOut + tmpOutStart + n <= dstPtr
    ensures dstPtr + n <= tob || tob + maxBuf <= dstPtr
    ensures dictSize > 0 ==> dict + dictSize <= dstPtr || dstPtr + n <= dict
  {
    HistShape(s, tob, maxBuf, dict, dictSize, out[..sent], |out| - sent, valid);
    HistoryNotInFreeDst(s, tob, maxBuf, dict, dictSize, out[..sent], |out| - sent, valid, dstStart, dstPtr, dstEnd);
    NextBytes(s, tob, maxBuf, tmpOut, tmpOutSize, tmpOutStart, out, sent, n);
    hide Hist, Joins, At;
  }

  /** dstage_flushOut for linked blocks. */
  method FlushLinked(mem: array<byte>, tob: nat, maxBuf: nat, dict0: int, dictSize: nat, dstStart: nat, dstPtr: nat,
                     dstEnd: nat, tmpOut: nat, tmpOutSize: nat, tmpOutStart: nat, ghost out: seq<byte>, ghost sent: nat,
                     ghost valid: nat)
    returns (n: nat, dict: int, size: nat, ghost v: nat)
    requires KeptFlushing(mem[..], tob, maxBuf, dict0, dictSize, out, sent, valid, tmpOut, tmpOutSize, tmpOutStart)
    requires InCall(mem[..], tob, dstStart, dstPtr, dstEnd, out[..sent], dict0, dictSize)
    modifies mem
    ensures n == Min(tmpOutSize - tmpOutStart, dstEnd - dstPtr)
    ensures KeptFlushing(mem[..], tob, maxBuf, dict, size, out, sent + n, v, tmpOut, tmpOutSize, tmpOutStart + n)
    ensures InCall(mem[..], tob, dstStart, dstPtr + n, dstEnd, out[..sent + n], dict, size)
    ensures Untouched(old(mem[..]), mem[..], tob, dstPtr, dstEnd)
  {
    CallShape(mem[..], tob, dstStart, dstPtr, dstEnd, out[..sent], dict0, dictSize);
    assert tmpOutStart <= tmpOutSize;
    hide KeptFlushing, InCall, At, Flushing, Hist, Joins;
    n := Min(tmpOutSize - tmpOutStart, dstEnd - dstPtr);
    MoveNext(mem, tob, maxBuf, dict0, dictSize, dstStart, dstPtr, dstEnd, tmpOut, tmpOutSize, tmpOutStart, n, out,
             sent, valid);
    dict, size, v := UpdateDictWithinTmp(mem, tob, maxBuf, dict0, dictSize, dstPtr, n, dstStart, tmpOut, tmpOutSize,
                                         tmpOutStart, dstEnd, out, sent, valid);
  }

  /** dstage_flushOut for independent blocks. */
  method FlushAlone(mem: array<byte>, tob: nat, maxBuf: nat, ghost dict: int, ghost dictSize: nat, ghost dstStart: nat,
                    dstPtr: nat, dstEnd: nat, tmpOut: nat, tmpOutSize: nat, tmpOutStart: nat, ghost out: seq<byte>,
                    ghost sent: nat)
    returns (n: nat)
    requires sent <= |out| && Flushing(mem[..], tob, maxBuf, tmpOut, tmpOutSize, tmpOutStart, out, sent)
    requires InCall(mem[..], tob, dstStart, dstPtr, dstEnd, out[..sent], dict, dictSize)
    modifies mem
    ensures n == Min(tmpOutSize - tmpOutStart, dstEnd - dstPtr) && sent + n <= |out|
    ensures Flushing(mem[..], tob, maxBuf, tmpOut, tmpOutSize, tmpOutStart + n, out, sent + n)
    ensures InCall(mem[..], tob, dstStart, dstPtr + n, dstEnd, out[..sent + n], dict, dictSize)
    ensures forall j :: 0 <= j < mem.Length && !(dstPtr <= j < dstEnd) ==> mem[j] == old(mem[j])
  {
    n := Min(tmpOutSize - tmpOutStart, dstEnd - dstPtr);
    CallShape(mem[..], tob, dstStart, dstPtr, dstEnd, out[..sent], dict, dictSize);
    DstApart(mem[..], tob, dstStart, dstPtr, dstEnd, out[..sent], dict, dictSize, n);
    assert dict != tob && dictSize > 0 ==> dict + dictSize <= dstPtr || dstEnd <= dict;
    hide InCall, At, LastBytes;
    ghost var s0, w := mem[..], out[sent..sent + n];
    NextBytes(s0, tob, maxBuf, tmpOut, tmpOutSize, tmpOutStart, out, sent, n);
    MoveIn(mem, dstPtr, tmpOut + tmpOutStart, n, w);
    AtUnchanged(s0, mem[..], tmpOut, LastBytes(out, tmpOutSize));
    InCallStays(s0, mem[..], tob, dstStart, dstPtr, dstEnd, out[..sent], dict, dictSize, dstPtr, dstPtr + n);
    AdvanceCall(mem[..], tob, dstStart, dstPtr, dstEnd, dict, dictSize, out[..sent], w, dict, dictSize);
    NextPrefix(out, sent, n);
  }

  /** Memory has changed only inside the temporary buffer and the free part of the caller's. */
  ghost predicate Untouched(s0: seq<byte>, s: seq<byte>, tob: nat, dstPtr: nat, dstEnd: nat) {
    |s| == |s0| && forall j :: 0 <= j < |s| && !(tob <= j < tob + RESERVED) && !(dstPtr <= j < dstEnd) ==> s[j] == s0[j]
  }

  // ---------------------------------------------------------------- end of a call

  /** Between blocks: the last 64 KB of the history move to the temporary buffer. */
  method SaveHistory(mem: array<byte>, tob: nat, maxBuf: nat, dict: int, dictSize: nat, ghost e: seq<byte>)
    returns (size: nat)
    requires Hist(mem[..], tob, maxBuf, dict, dictSize, e, 0, dictSize) && dict != tob && maxBuf >= KB64
    modifies mem
    ensures size == Min(dictSize, KB64) && Hist(mem[..], tob, maxBuf, tob, size, e, 0, size)
    ensures forall j :: 0 <= j < mem.Length && !(tob <= j < tob + maxBuf) ==> mem[j] == old(mem[j])
  {
    size := Min(dictSize, KB64);
    if size > 0 {
      ShorterTail(mem[..], dict, dictSize, e, dictSize, size);
      MoveIn(mem, tob, dict + dictSize - size, size, LastBytes(e, size));
    }
  }

  // ---------------------------------------------------------------- output straight to the caller

  /** New output has appeared at `dstPtr`: the history follows it. */
  method NoteOutput(mem: array<byte>, tob: nat, maxBuf: nat, dict0: int, dictSize: nat, dstStart: nat, dstPtr: nat,
                    dstEnd: nat, n: nat, ghost s0: seq<byte>, ghost e: seq<byte>, ghost valid: nat, ghost w: seq<byte>)
    returns (dict: int, size: nat, ghost v: nat)
    requires Kept(s0, tob, maxBuf, dict0, dictSize, e, 0, valid, dstStart, dstPtr, dstEnd) && maxBuf >= 3 * KB64
    requires |s0| == mem.Length && forall j :: 0 <= j < mem.Length && !(dstPtr <= j < dstEnd) ==> mem[j] == s0[j]
    requires dstPtr + n <= dstEnd && |w| == n && At(mem[..], dstPtr, w)
    modifies mem
    ensures Kept(mem[..], tob, maxBuf, dict, size, e + w, 0, v, dstStart, dstPtr + n, dstEnd)
    ensures forall j :: 0 <= j < mem.Length && !(tob <= j < tob + maxBuf) ==> mem[j] == old(mem[j])
  {
    HistoryNotInFreeDst(s0, tob, maxBuf, dict0, dictSize, e, 0, valid, dstStart, dstPtr, dstEnd);
    HistShape(s0, tob, maxBuf, dict0, dictSize, e, 0, valid);
    CallShape(s0, tob, dstStart, dstPtr, dstEnd, e, dict0, dictSize);
    hide Hist, InCall, At;
    HistStays(s0, mem[..], tob, maxBuf, dict0, dictSize, e, 0, valid, dstPtr, dstEnd, 0);
    InCallStays(s0, mem[..], tob, dstStart, dstPtr, dstEnd, e, dict0, dictSize, dstPtr, dstEnd);
    dict, size, v := UpdateDict(mem, tob, maxBuf, dict0, dictSize, dstPtr, n, dstStart, dstEnd, e, valid, w);
  }

  /** Output of independent blocks: only the caller's buffer matters. */
  lemma {:induction false} NoteIndependent(s0: seq<byte>, s: seq<byte>, tob: nat, dstStart: nat, dstPtr: nat,
                                           dstEnd: nat, e: seq<byte>, dict: int, w: seq<byte>)
    requires InCall(s0, tob, dstStart, dstPtr, dstEnd, e, dict, 0) && |s| == |s0| && dstPtr + |w| <= dstEnd
             && At(s, dstPtr, w)
    requires forall j :: 0 <= j < |s| && !(dstPtr <= j < dstEnd) ==> s[j] == s0[j]
    ensures InCall(s, tob, dstStart, dstPtr + |w|, dstEnd, e + w, dict, 0)
  {
    InCallStays(s0, s, tob, dstStart, dstPtr, dstEnd, e, dict, 0, dstPtr, dstEnd);
    AdvanceCall(s, tob, dstStart, dstPtr, dstEnd, dict, 0, e, w, dict, 0);
  }
}
