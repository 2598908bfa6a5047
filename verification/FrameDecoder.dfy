/**
 LZ4F_decompress: a decoder that may be given its input and its output space in any pieces. A ghost copy of the
 byte-fed machine records what the input consumed so far means; every call keeps the two in step.
 */
module FrameDecoder {
  import opened Bytes
  import opened BlockFormat
  import opened BlockAcceptance
  import opened BlockCopy
  import opened XxStripes
  import Xxh32
  import opened FrameFormat
  import opened FrameHistory
  import opened FrameStages
  import opened FrameBlocks

  type Sum = State<Xxh32.Lanes, bv32>

  /** Buffers and history: tmpOutBuffer starts at a fixed address and is `maxBuf` bytes long. */
  datatype Buffers = Buffers(maxBuf: nat, dict: int, dictSize: nat, tmpOut: nat, tmpOutSize: nat, tmpOutStart: nat)

  predicate InBlocks(s: Stage) {
    !InHeader(s) && s != Init
  }

  /** Size of the temporary buffer that a frame needs. */
  function BufferNeeded(info: Info): nat {
    info.maxBlock + if info.linked then 2 * KB64 else 0
  }

  /** The history and the pending output of a context, as far as its stage needs them. */
  ghost predicate MemOk(s: seq<byte>, tob: nat, c: Ctx, b: Buffers, m: Machine, sent: nat, valid: nat) {
    && tob + RESERVED <= |s| && b.maxBuf <= RESERVED && b.dict + b.dictSize <= |s|
    && (InBlocks(c.stage) ==> b.maxBuf >= BufferNeeded(c.info))
    && (InHeader(c.stage) || c.stage == Init ==> b.dictSize == 0 && m.out == [])
    && (InBlocks(c.stage) && !c.info.linked ==> b.dictSize == 0 && b.tmpOut == tob)
    && (InBlocks(c.stage) && c.info.linked && c.stage !in {FlushOut, GetSuffix, StoreSuffix} ==>
          Hist(s, tob, b.maxBuf, b.dict, b.dictSize, m.out, 0, valid))
    && (c.stage == FlushOut && c.info.linked ==>
          KeptFlushing(s, tob, b.maxBuf, b.dict, b.dictSize, m.out, sent, valid, b.tmpOut, b.tmpOutSize, b.tmpOutStart))
    && (c.stage == FlushOut && !c.info.linked ==>
          Flushing(s, tob, b.maxBuf, b.tmpOut, b.tmpOutSize, b.tmpOutStart, m.out, sent))
  }

  /** The bytes hashed so far for the checksum of an uncompressed block. */
  ghost function RawData(m: Machine): seq<byte> {
    if m.phase.Raw? then m.phase.data
    else if m.phase.Collect? && m.phase.kind.KRawCrc? then m.phase.kind.data
    else []
  }

  /** A running checksum over `all`. */
  ghost predicate Sums(x: Sum, rule: Rule<Xxh32.Lanes, bv32>, start: Xxh32.Lanes, all: seq<byte>)
    reads x, x.mem
  {
    x.Valid() && x.rule == rule && x.start == start && x.all == all
  }

  class Decoder {
    const mem: array<byte>
    const tob: nat
    const rule: Rule<Xxh32.Lanes, bv32>
    const start: Xxh32.Lanes
    var c: Ctx
    var b: Buffers
    var xxh: Sum
    var blockXxh: Sum
    ghost var m: Machine
    ghost var sent: nat
    ghost var valid: nat

    ghost function Repr(): set<object>
      reads this
    {
      {this, mem, xxh, xxh.mem, blockXxh, blockXxh.mem}
    }

    ghost predicate Separate()
      reads this
    {
      xxh != blockXxh && xxh.mem != blockXxh.mem && xxh.mem != mem && blockXxh.mem != mem
    }

    ghost predicate SumsOk()
      reads this, xxh, xxh.mem, blockXxh, blockXxh.mem
    {
      && Separate()
      && (InBlocks(c.stage) && c.info.contentCrc ==> Sums(xxh, rule, start, m.out))
      && (c.stage in {CopyDirect, GetBlockChecksum} && c.info.blockCrc ==> Sums(blockXxh, rule, start, RawData(m)))
    }

    ghost predicate Valid()
      reads Repr()
    {
      && IsSum(m.sum, rule, start) && !rule.wide && WellFormed(m)
      && sent <= |m.out| && (c.stage != FlushOut ==> sent == |m.out|)
      && SumsOk() && StageOk(c, m) && MemOk(mem[..], tob, c, b, m, sent, valid)
    }

    /** Within a call: the caller's buffer [dstStart, dstEnd) is filled up to `dstPtr`. */
    ghost predicate CallOk(dstStart: nat, dstPtr: nat, dstEnd: nat)
      reads this, mem
    {
      && sent <= |m.out| && dstStart <= dstPtr <= dstEnd <= mem.Length
      && InCall(mem[..], tob, dstStart, dstPtr, dstEnd, m.out[..sent], b.dict, Live())
    }

    /** The end of a frame needs no history any more. */
    function Live(): nat
      reads this
    {
      if c.stage in {GetSuffix, StoreSuffix} then 0 else b.dictSize
    }

    /** A fresh context. The region of the temporary buffer is set aside beforehand. */
    constructor (mem: array<byte>, tob: nat, rule: Rule<Xxh32.Lanes, bv32>, start: Xxh32.Lanes,
                 ghost sum: seq<byte> -> nat)
      requires tob + RESERVED <= mem.Length && IsSum(sum, rule, start)
      ensures Valid() && m == Initial(sum) && sent == 0 && this.mem == mem && this.tob == tob
              && c.stage == GetFrameHeader
      ensures b.dictSize == 0 && fresh(Repr() - {mem})
    {
      this.mem, this.tob, this.rule, this.start := mem, tob, rule, start;
      c := Ctx(GetFrameHeader, Info(true, false, false, 0, 0), 0, [], 0);
      b := Buffers(0, -1, 0, tob, 0, 0);
      m, sent, valid := Initial(sum), 0, 0;
      xxh := new State(rule, start);
      blockXxh := new State(rule, start);
    }

    /** The checksum of a new frame, if it has one. */
    method StartSum()
      requires IsSum(m.sum, rule, start) && Separate()
      modifies this`xxh
      ensures Separate() && fresh(Repr() - old(Repr())) && blockXxh == old(blockXxh)
      ensures c.info.contentCrc ==> Sums(xxh, rule, start, [])
    {
      if c.info.contentCrc {
        xxh := new State(rule, start);
      }
    }

    /** dstage_init: checksum and buffers for a new frame. */
    method StepInit(ghost src: seq<byte>, ghost p: nat, ghost dstStart: nat, ghost dstPtr: nat, ghost dstEnd: nat)
      requires Valid() && c.stage == Init && CallOk(dstStart, dstPtr, dstEnd) && p <= |src|
      modifies this
      ensures Stepped(src, p, Go, p)
      ensures Valid() && CallOk(dstStart, dstPtr, dstEnd) && c.stage == GetBlockHeader && m == old(m)
              && sent == old(sent)
      ensures fresh(Repr() - old(Repr()))
    {
      hide MemOk, InCall, IsSum, Sums, StageOk, Ended, WellFormed, Rejected, BufferNeeded, RawData, FeedAll;
      var c1 := c.(stage := GetBlockHeader, stored := [], target := 0);
      BlocksMayStart(c, c1, m);
      ghost var s0 := mem[..];
      NothingMore(m, src, p);
      StartSum();
      var maxBuf := if BufferNeeded(c.info) > b.maxBuf then BufferNeeded(c.info) else b.maxBuf;
      MemoryAtStart(s0, tob, c, c1, b, maxBuf, m, sent, valid);
      b := Buffers(maxBuf, b.dict, b.dictSize, tob, 0, 0);
      c, valid := c1, 0;
    }

    /** What a step that only consumes input promises. */
    twostate predicate Stepped(src: seq<byte>, p: nat, r: Outcome, q: nat)
      requires p <= |src| && old(WellFormed(m))
      reads this
    {
      if r == Broken then Rejected(FeedAll(old(m), src[p..]))
      else
        && p <= q <= |src| && m == FeedAll(old(m), src[p..q]) && m.sum == old(m.sum)
        && (r == Finished ==> m.phase == Done)
        && (r == Stop ==> !Ended(m))
        && (r == Go ==> q > p || Rank(c.stage) < Rank(old(c.stage)))
    }

    /** The frame header. */
    method StepHeader(src: seq<byte>, p: nat) returns (r: Outcome, q: nat)
      requires Valid() && c.stage in {GetFrameHeader, StoreFrameHeader} && p <= |src|
      modifies this`c, this`m
      ensures Stepped(src, p, r, q) && r != Finished
      ensures r == Stop ==> q == |src|
      ensures r != Broken ==> Valid() && m.out == old(m.out) && c.stage !in {GetSuffix, StoreSuffix}
    {
      hide MemOk, IsSum, Sums, PhaseOf, SideOk, FeedAll, WellFormed;
      var c1;
      r, c1, q := HeaderStage(c, src, p, rule, start, m);
      if r != Broken {
        KeepsSum(m, src[p..q]);
        ghost var m1 := FeedAll(m, src[p..q]);
        HeaderMemory(mem[..], tob, c, c1, b, m, m1, sent, valid);
        c, m := c1, m1;
      }
    }

    /** Size and contents of a skippable frame. */
    method StepSkip(src: seq<byte>, p: nat) returns (r: Outcome, q: nat)
      requires Valid() && c.stage in {GetSFrameSize, StoreSFrameSize, SkipSkippable} && p <= |src|
      modifies this`c, this`m
      ensures Stepped(src, p, r, q) && r != Broken && m.out == old(m.out) && c.stage !in {GetSuffix, StoreSuffix}
      ensures r == Finished ==> c.remaining == 0
      ensures r == Stop ==> q == |src|
      ensures r != Finished ==> Valid()
    {
      hide Hist, KeptFlushing, Flushing, IsSum, Sums, PhaseOf, SideOk, Rejected, Ended, RawData;
      var c1;
      r, c1, q := SkippableStage(c, src, p, m);
      KeepsSum(m, src[p..q]);
      c, m := c1, FeedAll(m, src[p..q]);
    }

    /** After a block header: an uncompressed block needs a fresh checksum. */
    method Adopt(c1: Ctx, ghost m1: Machine)
      requires SumsOk() && InBlocks(c.stage) && InBlocks(c1.stage) && c1.info == c.info && m1.out == m.out
      requires c1.stage == CopyDirect ==> RawData(m1) == []
      requires IsSum(m.sum, rule, start) && c1.stage != GetBlockChecksum
      modifies this`c, this`m, this`blockXxh
      ensures c == c1 && m == m1 && SumsOk() && fresh(Repr() - old(Repr()))
    {
      c, m := c1, m1;
      if c1.stage == CopyDirect && c1.info.blockCrc {
        blockXxh := new State(rule, start);
      }
    }

    /** A block header; an uncompressed block starts a checksum of its own. */
    method StepBlockHeader(src: seq<byte>, p: nat, ghost dstStart: nat, dstPtr: nat, dstEnd: nat)
      returns (r: Outcome, q: nat)
      requires Valid() && c.stage in {GetBlockHeader, StoreBlockHeader} && p <= |src|
               && CallOk(dstStart, dstPtr, dstEnd)
      modifies this`c, this`m, this`blockXxh
      ensures Stepped(src, p, r, q) && r != Finished
      ensures r == Stop ==> q == |src| || dstPtr == dstEnd
      ensures r != Broken ==> CallOk(dstStart, dstPtr, dstEnd)
      ensures r != Broken ==> Valid() && m.out == old(m.out)
      ensures fresh(Repr() - old(Repr()))
    {
      hide InCall, MemOk, IsSum, Sums, PhaseOf, SideOk;
      var c1;
      r, c1, q := BlockHeaderStage(c, src, p, dstPtr == dstEnd, m);
      if r != Broken {
        KeepsSum(m, src[p..q]);
        ghost var m1 := FeedAll(m, src[p..q]);
        SameMemory(mem[..], tob, c, c1, b, m, m1, sent, valid);
        InCallWithout(mem[..], tob, dstStart, dstPtr, dstEnd, m.out[..sent], b.dict, b.dictSize);
        Adopt(c1, m1);
      }
    }

    /** Checksum of the uncompressed block that has just been output. */
    method BlockDigest() returns (digest: nat)
      requires Valid() && c.stage == GetBlockChecksum
      ensures m.phase.Collect? && m.phase.kind.KRawCrc? && digest == m.sum(m.phase.kind.data)
    {
      hide MemOk;
      var x := blockXxh.Digest();
      digest := x as nat;
    }

    /** Checksum of everything that has been output. */
    method ContentDigest() returns (digest: nat)
      requires Valid() && c.stage in {GetSuffix, StoreSuffix}
      ensures c.info.contentCrc ==> digest == m.sum(m.out)
    {
      hide MemOk, PhaseOf, SideOk;
      digest := 0;
      if c.info.contentCrc {
        var x := xxh.Digest();
        digest := x as nat;
      }
    }

    /** The checksum of an uncompressed block. */
    method StepBlockChecksum(src: seq<byte>, p: nat) returns (r: Outcome, q: nat)
      requires Valid() && c.stage == GetBlockChecksum && p <= |src|
      modifies this`c, this`m
      ensures Stepped(src, p, r, q) && r != Finished
      ensures r == Stop ==> q == |src|
      ensures r != Broken ==> Valid() && m.out == old(m.out) && c.stage in {GetBlockChecksum, GetBlockHeader}
    {
      hide IsSum, Sums, PhaseOf, SideOk, MemOk;
      var digest := BlockDigest();
      var c1;
      r, c1, q := BlockChecksumStage(c, src, p, digest, m);
      if r != Broken {
        KeepsSum(m, src[p..q]);
        ghost var m1 := FeedAll(m, src[p..q]);
        SameMemory(mem[..], tob, c, c1, b, m, m1, sent, valid);
        c, m := c1, m1;
      }
    }

    /** The end of the frame. */
    method StepSuffix(src: seq<byte>, p: nat) returns (r: Outcome, q: nat)
      requires Valid() && c.stage in {GetSuffix, StoreSuffix} && p <= |src|
      modifies this`c, this`m
      ensures Stepped(src, p, r, q) && r != Go
      ensures r == Stop ==> q == |src|
      ensures r != Broken ==> m.out == old(m.out) && c.stage in {GetSuffix, StoreSuffix}
      ensures r == Finished ==> c.remaining == 0
      ensures r == Stop ==> Valid()
    {
      hide MemOk, IsSum, Sums, PhaseOf, SideOk, FeedAll, WellFormed;
      var digest := ContentDigest();
      var c1;
      r, c1, q := SuffixStage(c, src, p, digest, m);
      if r != Broken {
        KeepsSum(m, src[p..q]);
        ghost var m1 := FeedAll(m, src[p..q]);
        if r == Stop {
          SameMemory(mem[..], tob, c, c1, b, m, m1, sent, valid);
        }
        c, m := c1, m1;
      }
    }

    /** Output that now stands at [dstPtr, dstPtr + n) of the caller's buffer enters the history. */
    method NoteDirect(dstStart: nat, dstPtr: nat, dstEnd: nat, n: nat, ghost s0: seq<byte>, ghost w: seq<byte>)
      requires InBlocks(c.stage) && c.stage !in {FlushOut, GetSuffix, StoreSuffix}
      requires MemOk(s0, tob, c, b, m, sent, valid) && KB64 <= c.info.maxBlock
      requires InCall(s0, tob, dstStart, dstPtr, dstEnd, m.out, b.dict, b.dictSize)
      requires |s0| == mem.Length && forall j :: 0 <= j < mem.Length && !(dstPtr <= j < dstEnd) ==> mem[j] == s0[j]
      requires dstPtr + n <= dstEnd && |w| == n && At(mem[..], dstPtr, w)
      modifies this`b, this`valid, mem
      ensures BetweenBlocks(mem[..], tob, c.info, b, m.out + w, valid)
      ensures InCall(mem[..], tob, dstStart, dstPtr + n, dstEnd, m.out + w, b.dict, b.dictSize)
      ensures forall j :: 0 <= j < mem.Length && !(tob <= j < tob + RESERVED) ==> mem[j] == old(mem[j])
    {
      hide InCall, Hist, At;
      if c.info.linked {
        var dict, size;
        ghost var v;
        dict, size, v := NoteOutput(mem, tob, b.maxBuf, b.dict, b.dictSize, dstStart, dstPtr, dstEnd, n, s0, m.out,
                                    valid, w);
        HistShape(mem[..], tob, b.maxBuf, dict, size, m.out + w, 0, v);
        b, valid := b.(dict := dict, dictSize := size), v;
      } else {
        NoteIndependent(s0, mem[..], tob, dstStart, dstPtr, dstEnd, m.out, b.dict, w);
      }
    }

    /** Feed output to the running checksums. */
    method FeedSums(w: seq<byte>, raw: bool, ghost data: seq<byte>)
      requires Separate()
      requires c.info.contentCrc ==> Sums(xxh, rule, start, m.out)
      requires raw && c.info.blockCrc ==> Sums(blockXxh, rule, start, data)
      requires !rule.wide
      modifies xxh, xxh.mem, blockXxh, blockXxh.mem
      ensures c.info.contentCrc ==> Sums(xxh, rule, start, m.out + w)
      ensures raw && c.info.blockCrc ==> Sums(blockXxh, rule, start, data + w)
    {
      if raw && c.info.blockCrc {
        blockXxh.Update(w);
      }
      if c.info.contentCrc {
        xxh.Update(w);
      }
    }

    /** What stands ready when output `w` has been delivered but not yet accounted for. */
    ghost predicate Delivered(w: seq<byte>, dstStart: nat, end: nat, dstEnd: nat)
      reads this, mem
    {
      && dstStart <= end <= dstEnd <= mem.Length
      && InCall(mem[..], tob, dstStart, end, dstEnd, m.out + w, b.dict, b.dictSize)
      && BetweenBlocks(mem[..], tob, c.info, b, m.out + w, valid)
    }

    /** What a block being output relies on. */
    ghost predicate Outputting(dstStart: nat, dstPtr: nat, dstEnd: nat)
      reads this, mem, xxh, xxh.mem
    {
      && Separate() && !rule.wide && KB64 <= c.info.maxBlock
      && (c.info.contentCrc ==> Sums(xxh, rule, start, m.out))
      && dstStart <= dstPtr <= dstEnd <= mem.Length
      && MemOk(mem[..], tob, c, b, m, sent, valid)
      && InCall(mem[..], tob, dstStart, dstPtr, dstEnd, m.out, b.dict, b.dictSize)
    }

    lemma ReadyToOutput(dstStart: nat, dstPtr: nat, dstEnd: nat)
      requires Valid() && c.stage in {CopyDirect, GetCBlock, StoreCBlock} && CallOk(dstStart, dstPtr, dstEnd)
      ensures Outputting(dstStart, dstPtr, dstEnd)
      ensures c.stage == CopyDirect ==> m.phase.Raw? && (c.info.blockCrc ==> Sums(blockXxh, rule, start, m.phase.data))
    {
      hide InCall, Hist, KeptFlushing, Flushing, IsSum, Sums;
      assert m.out[..sent] == m.out;
    }

    /** Copy `n` bytes of an uncompressed block, keep the history, feed the checksums. */
    method TransferRaw(src: seq<byte>, p: nat, n: nat, dstStart: nat, dstPtr: nat, dstEnd: nat, ghost data: seq<byte>)
      requires Outputting(dstStart, dstPtr, dstEnd) && c.stage == CopyDirect && p + n <= |src| && dstPtr + n <= dstEnd
      requires c.info.blockCrc ==> Sums(blockXxh, rule, start, data)
      modifies this`b, this`valid, mem, xxh, xxh.mem, blockXxh, blockXxh.mem
      ensures Delivered(src[p..p + n], dstStart, dstPtr + n, dstEnd)
      ensures c.info.contentCrc ==> Sums(xxh, rule, start, m.out + src[p..p + n])
      ensures c.info.blockCrc ==> Sums(blockXxh, rule, start, data + src[p..p + n])
      ensures Untouched(old(mem[..]), mem[..], tob, dstPtr, dstEnd)
    {
      hide MemOk, InCall, BetweenBlocks, Sums;
      ghost var s0 := mem[..];
      CopyIn(mem, dstPtr, src, p, n);
      assert At(mem[..], dstPtr, src[p..p + n]);
      hide At;
      NoteDirect(dstStart, dstPtr, dstEnd, n, s0, src[p..p + n]);
      FeedSums(src[p..p + n], true, data);
    }

    /** Account for output `w` that has been delivered. */
    method Commit(c1: Ctx, ghost m1: Machine, ghost w: seq<byte>, ghost dstStart: nat, ghost end: nat,
                  ghost dstEnd: nat)
      requires Separate() && IsSum(m1.sum, rule, start) && !rule.wide && WellFormed(m1) && StageOk(c1, m1)
               && m1.out == m.out + w
      requires Delivered(w, dstStart, end, dstEnd)
      requires c1.info == c.info && c1.stage in {CopyDirect, GetBlockChecksum, GetBlockHeader}
      requires c1.info.contentCrc ==> Sums(xxh, rule, start, m1.out)
      requires c1.stage in {CopyDirect, GetBlockChecksum} && c1.info.blockCrc ==>
                 Sums(blockXxh, rule, start, RawData(m1))
      modifies this`c, this`m, this`sent
      ensures Valid() && CallOk(dstStart, end, dstEnd) && c == c1 && m == m1 && sent == |m1.out|
    {
      hide Hist, InCall, Sums, IsSum, PhaseOf, SideOk, MemOk, BetweenBlocks, WellFormed;
      BetweenIsOk(mem[..], tob, c1, b, m1, valid);
      c, m, sent := c1, m1, |m1.out|;
      assert m.out[..sent] == m.out;
    }

    /** dstage_copyDirect: as much of an uncompressed block as input and output allow. */
    method StepCopy(src: seq<byte>, p: nat, dstStart: nat, dstPtr: nat, dstEnd: nat)
      returns (r: Outcome, q: nat, end: nat)
      requires Valid() && c.stage == CopyDirect && p <= |src| && CallOk(dstStart, dstPtr, dstEnd)
      modifies this`c, this`b, this`m, this`sent, this`valid, mem, xxh, xxh.mem, blockXxh, blockXxh.mem
      ensures Stepped(src, p, r, q) && r in {Go, Stop} && Valid()
      ensures r == Stop ==> q == |src| || end == dstEnd
      ensures dstPtr <= end <= dstEnd && CallOk(dstStart, end, dstEnd) && sent == old(sent) + (end - dstPtr)
      ensures Untouched(old(mem[..]), mem[..], tob, dstPtr, dstEnd)
    {
      hide MemOk, StageOk, InCall, BetweenBlocks, IsSum, Sums, WellFormed, RawData, Untouched, FeedAll, AfterCopy,
           Ended, Decoder.Delivered, Decoder.Outputting;
      var n := Min(c.target, Min(|src| - p, dstEnd - dstPtr));
      q, end := p + n, dstPtr + n;
      ghost var w := src[p..q];
      ghost var m1 := FeedAll(m, w);
      AfterCopyOk(c, m, w);
      KeepsSum(m, w);
      r := if n == c.target then Go else Stop;
      var c1 := AfterCopy(c, n);
      ReadyToOutput(dstStart, dstPtr, dstEnd);
      TransferRaw(src, p, n, dstStart, dstPtr, dstEnd, m.phase.data);
      Commit(c1, m1, w, dstStart, end, dstEnd);
    }

    /** The history a block is decoded with. */
    lemma BlockHistory(v: nat)
      requires InBlocks(c.stage) && c.stage !in {FlushOut, GetSuffix, StoreSuffix}
               && MemOk(mem[..], tob, c, b, m, sent, valid)
      requires v == if c.info.linked then valid else 0
      ensures Hist(mem[..], tob, b.maxBuf, b.dict, b.dictSize, HistoryOf(m, c.info), 0, v)
      ensures BetweenBlocks(mem[..], tob, c.info, b, m.out, valid)
    {
    }

    /** Decode a block straight into the caller's buffer, which has room for the largest one. */
    method DecodeDirect(body: seq<byte>, dstStart: nat, dstPtr: nat, dstEnd: nat) returns (ok: bool, n: nat)
      requires Outputting(dstStart, dstPtr, dstEnd) && c.stage in {GetCBlock, StoreCBlock}
               && dstPtr + c.info.maxBlock <= dstEnd
      modifies this`b, this`valid, mem, xxh, xxh.mem, blockXxh, blockXxh.mem
      ensures ok <==> AcceptedAt(body, c.info.maxBlock, old(b.dict) + old(b.dictSize) == dstPtr, old(b.dictSize))
      ensures !ok ==> Rejected(OnBody(m, c.info, body))
      ensures ok ==> dstPtr + n <= dstEnd && BlockOk(m, c.info, body) && |BlockOutput(m, c.info, body)| == n
      ensures ok ==> Delivered(BlockOutput(m, c.info, body), dstStart, dstPtr + n, dstEnd)
      ensures ok && c.info.contentCrc ==> Sums(xxh, rule, start, m.out + BlockOutput(m, c.info, body))
      ensures Untouched(old(mem[..]), mem[..], tob, dstPtr, dstEnd)
    {
      hide AcceptedAt, Sums, Hist, BlockDecoded, MemOk, InCall, BetweenBlocks, OnBody, BlockOk, BlockOutput;
      ghost var s0 := mem[..];
      BlockHistory(if c.info.linked then valid else 0);
      var k := DecodeHere(body, dstStart, dstPtr, dstEnd);
      BodyDecoded(m, c.info, body, mem[..], dstPtr, b.dict + b.dictSize == dstPtr, b.dictSize, k);
      if k < 0 {
        return false, 0;
      }
      ok, n := true, k;
      assert mem[..][dstPtr..dstPtr + n] == mem[dstPtr..dstPtr + n];
      var w := mem[dstPtr..dstPtr + n];
      assert At(mem[..], dstPtr, w);
      NoteDirect(dstStart, dstPtr, dstEnd, n, s0, w);
      FeedSums(w, false, []);
    }

    method DecodeHere(body: seq<byte>, ghost dstStart: nat, dstPtr: nat, ghost dstEnd: nat) returns (k: int)
      requires InBlocks(c.stage) && dstStart <= dstPtr && dstPtr + c.info.maxBlock <= dstEnd <= mem.Length
               && c.info.maxBlock >= KB64
      requires Hist(mem[..], tob, b.maxBuf, b.dict, b.dictSize, HistoryOf(m, c.info), 0,
                    if c.info.linked then valid else 0)
      requires InCall(mem[..], tob, dstStart, dstPtr, dstEnd, m.out, b.dict, b.dictSize)
      modifies mem
      ensures BlockDecoded(body, HistoryOf(m, c.info), mem[..], dstPtr, c.info.maxBlock,
                           b.dict + b.dictSize == dstPtr, b.dictSize, k)
      ensures forall j :: 0 <= j < mem.Length && !(dstPtr <= j < dstEnd) ==> mem[j] == old(mem[j])
    {
      k := DecodeWithHistory(mem, tob, b.maxBuf, b.dict, b.dictSize, dstPtr, c.info.maxBlock, body,
                             HistoryOf(m, c.info), if c.info.linked then valid else 0);
    }

    /** Decode a block behind the history in the temporary buffer; it will be flushed from there. */
    method DecodeLinkedToTmp(body: seq<byte>) returns (k: int)
      requires c.info.linked && b.maxBuf >= BufferNeeded(c.info) && c.info.maxBlock >= KB64
      requires Hist(mem[..], tob, b.maxBuf, b.dict, b.dictSize, m.out, 0, valid)
      modifies this`b, this`valid, mem
      ensures BlockDecoded(body, m.out, mem[..], b.tmpOut, c.info.maxBlock, b.dict == tob, old(b.dictSize), k)
      ensures k >= 0 ==>
                && b.tmpOut + k <= mem.Length && b.tmpOutSize == k && b.tmpOutStart == 0
                && b.dict + b.dictSize <= mem.Length
      ensures k >= 0 ==> KeptFlushing(mem[..], tob, b.maxBuf, b.dict, b.dictSize, m.out + mem[b.tmpOut..b.tmpOut + k],
                                      |m.out|, valid, b.tmpOut, b.tmpOutSize, b.tmpOutStart)
      ensures b.dict == old(b.dict) && b.maxBuf == old(b.maxBuf) && (b.dict != tob ==> b.dictSize == old(b.dictSize))
      ensures forall j :: 0 <= j < mem.Length && !(tob <= j < tob + RESERVED) ==> mem[j] == old(mem[j])
    {
      hide Hist, Joins, KeptFlushing, BlockDecoded;
      var size, tmpOut;
      ghost var v;
      size, tmpOut, v := PlaceTmpOut(mem, tob, b.maxBuf, c.info.maxBlock, b.dict, b.dictSize, m.out, valid);
      HistShape(mem[..], tob, b.maxBuf, b.dict, size, m.out, 0, v);
      b, valid := b.(dictSize := size, tmpOut := tmpOut, tmpOutStart := 0), v;
      ghost var s0 := mem[..];
      k := DecodeWithHistory(mem, tob, b.maxBuf, b.dict, size, tmpOut, c.info.maxBlock, body, m.out, v);
      SamePlacement(body, m.out, mem[..], tmpOut, c.info.maxBlock, b.dict + size == tmpOut, size, b.dict == tob,
                    old(b.dictSize), k);
      if k >= 0 {
        b := b.(tmpOutSize := k);
        StartFlushing(s0, mem[..], tob, b.maxBuf, b.dict, size, m.out, v, tmpOut, c.info.maxBlock, k);
        assert mem[..][tmpOut..tmpOut + k] == mem[tmpOut..tmpOut + k];
      }
    }

    /** The same for an independent block, which goes to the start of the temporary buffer. */
    method DecodeAloneToTmp(body: seq<byte>) returns (k: int)
      requires !c.info.linked && b.maxBuf >= BufferNeeded(c.info) && c.info.maxBlock >= KB64 && b.dictSize == 0
               && b.tmpOut == tob
      requires Hist(mem[..], tob, b.maxBuf, b.dict, b.dictSize, [], 0, 0)
      modifies this`b, mem
      ensures BlockDecoded(body, [], mem[..], tob, c.info.maxBlock, b.dict == tob, b.dictSize, k)
      ensures k < 0 ==> b == old(b)
      ensures k >= 0 ==> tob + k <= mem.Length && b == old(b).(tmpOutSize := k, tmpOutStart := 0)
      ensures k >= 0 ==> Flushing(mem[..], tob, b.maxBuf, tob, k, 0, m.out + mem[tob..tob + k], |m.out|)
      ensures forall j :: 0 <= j < mem.Length && !(tob <= j < tob + RESERVED) ==> mem[j] == old(mem[j])
    {
      k := DecodeWithHistory(mem, tob, b.maxBuf, b.dict, b.dictSize, tob, c.info.maxBlock, body, [], 0);
      if k >= 0 {
        b := b.(tmpOutSize := k, tmpOutStart := 0);
        DecodedBehind(mem[..], tob, b.maxBuf, tob, m.out, k);
        assert mem[..][tob..tob + k] == mem[tob..tob + k];
      }
    }

    /** Decode a block into the temporary buffer. */
    method DecodeToTmp(body: seq<byte>, ghost dstStart: nat, ghost dstPtr: nat, ghost dstEnd: nat)
      returns (ok: bool, n: nat)
      requires Outputting(dstStart, dstPtr, dstEnd) && c.stage in {GetCBlock, StoreCBlock}
      modifies this`b, this`valid, mem, xxh, xxh.mem, blockXxh, blockXxh.mem
      ensures ok <==> AcceptedAt(body, c.info.maxBlock, old(b.dict) == tob, old(b.dictSize))
      ensures !ok ==> Rejected(OnBody(m, c.info, body))
      ensures ok ==> BlockOk(m, c.info, body) && |BlockOutput(m, c.info, body)| == n
      ensures ok ==> InCall(mem[..], tob, dstStart, dstPtr, dstEnd, m.out, b.dict, b.dictSize)
      ensures ok ==> PendingIn(mem[..], tob, c.info, b, m.out + BlockOutput(m, c.info, body), |m.out|, valid)
      ensures ok && c.info.contentCrc ==> Sums(xxh, rule, start, m.out + BlockOutput(m, c.info, body))
      ensures forall j :: 0 <= j < mem.Length && !(tob <= j < tob + RESERVED) ==> mem[j] == old(mem[j])
    {
      hide AcceptedAt, Sums, Hist, BlockDecoded, InCall, OnBody, BlockOk, BlockOutput, KeptFlushing, Flushing,
           Rejected, MemOk;
      ghost var s0, b0 := mem[..], b;
      BlockHistory(if c.info.linked then valid else 0);
      var k;
      if c.info.linked {
        k := DecodeLinkedToTmp(body);
      } else {
        k := DecodeAloneToTmp(body);
      }
      BodyDecoded(m, c.info, body, mem[..], b.tmpOut, b0.dict == tob, b0.dictSize, k);
      if k < 0 {
        return false, 0;
      }
      ok, n := true, k;
      InCallKept(s0, mem[..], tob, dstStart, dstPtr, dstEnd, m.out, b0, b);
      assert mem[..][b.tmpOut..b.tmpOut + n] == mem[b.tmpOut..b.tmpOut + n];
      FeedSums(mem[b.tmpOut..b.tmpOut + n], false, []);
    }

    /** The context after a compressed block of `n` bytes. */
    function AfterBlock(stage: Stage, n: nat): Ctx
      reads this
    {
      c.(stage := stage, remaining := if c.info.contentSize == 0 then c.remaining else (c.remaining - n) % TWO64)
    }

    lemma {:induction false} AfterBlockOk(stage: Stage, body: seq<byte>, n: nat)
      requires StageOk(c, m) && c.stage in {GetCBlock, StoreCBlock} && stage in {GetBlockHeader, FlushOut}
      requires BlockOk(m, c.info, body) && |BlockOutput(m, c.info, body)| == n
      ensures StageOk(AfterBlock(stage, n), OnBody(m, c.info, body))
      ensures WellFormed(OnBody(m, c.info, body)) && OnBody(m, c.info, body).sum == m.sum
      ensures OnBody(m, c.info, body).out == m.out + BlockOutput(m, c.info, body)
    {
      hide BlockOk, BlockOutput;
      if c.info.contentSize != 0 {
        StillRemaining(c.info, |m.out|, n);
      }
    }

    /**
     The history stands directly before the place where the next block goes: the caller's buffer, or the temporary one.
     */
    predicate Adjoins(dstPtr: nat, dstEnd: nat)
      reads this
    {
      if dstEnd - dstPtr >= c.info.maxBlock then b.dict + b.dictSize == dstPtr else b.dict == tob
    }

    /** Decode a block to wherever there is room for it. */
    method DecodeBlock(body: seq<byte>, dstStart: nat, dstPtr: nat, dstEnd: nat) returns (ok: bool, end: nat)
      requires Valid() && c.stage in {GetCBlock, StoreCBlock} && CallOk(dstStart, dstPtr, dstEnd)
      modifies this`c, this`b, this`m, this`sent, this`valid, mem, xxh, xxh.mem, blockXxh, blockXxh.mem
      ensures ok <==> AcceptedAt(body, old(c.info.maxBlock), old(Adjoins(dstPtr, dstEnd)), old(b.dictSize))
      ensures !ok ==> Rejected(OnBody(old(m), old(c.info), body))
      ensures ok ==> Valid() && m == OnBody(old(m), old(c.info), body)
      ensures ok ==> dstPtr <= end <= dstEnd && CallOk(dstStart, end, dstEnd) && sent == old(sent) + (end - dstPtr)
      ensures Untouched(old(mem[..]), mem[..], tob, dstPtr, dstEnd)
    {
      hide Sums, InCall, MemOk, OnBody, BlockOk, BlockOutput, PendingIn, BetweenBlocks, SideOk, PhaseOf, IsSum,
           WellFormed, AcceptedAt;
      ReadyToOutput(dstStart, dstPtr, dstEnd);
      var n;
      if dstEnd - dstPtr >= c.info.maxBlock {
        ok, n := DecodeDirect(body, dstStart, dstPtr, dstEnd);
        end := dstPtr + n;
        if ok {
          AfterBlockOk(GetBlockHeader, body, n);
          Commit(AfterBlock(GetBlockHeader, n), OnBody(m, c.info, body), BlockOutput(m, c.info, body), dstStart, end,
                 dstEnd);
        }
      } else {
        ok, n := DecodeToTmp(body, dstStart, dstPtr, dstEnd);
        end := dstPtr;
        if ok {
          AfterBlockOk(FlushOut, body, n);
          CommitPending(AfterBlock(FlushOut, n), OnBody(m, c.info, body), dstStart, dstPtr, dstEnd);
        }
      }
    }

    /** Account for a block that waits in the temporary buffer. */
    method CommitPending(c1: Ctx, ghost m1: Machine, ghost dstStart: nat, ghost dstPtr: nat, ghost dstEnd: nat)
      requires Separate() && IsSum(m1.sum, rule, start) && !rule.wide && WellFormed(m1) && StageOk(c1, m1)
               && m.out <= m1.out
      requires c1.info == c.info && c1.stage == FlushOut && sent == |m.out|
               && dstStart <= dstPtr <= dstEnd <= mem.Length
      requires InCall(mem[..], tob, dstStart, dstPtr, dstEnd, m.out, b.dict, b.dictSize)
      requires PendingIn(mem[..], tob, c.info, b, m1.out, sent, valid)
      requires c1.info.contentCrc ==> Sums(xxh, rule, start, m1.out)
      modifies this`c, this`m
      ensures Valid() && CallOk(dstStart, dstPtr, dstEnd) && c == c1 && m == m1
    {
      hide MemOk, PendingIn, InCall, Sums, IsSum, StageOk, WellFormed;
      PendingIsOk(mem[..], tob, c1, b, m1, sent, valid);
      assert m1.out[..sent] == m.out;
      c, m := c1, m1;
    }

    /** Part of a compressed block has been stored. */
    method KeepPart(all: seq<byte>, ghost w: seq<byte>, ghost dstStart: nat, ghost dstPtr: nat, ghost dstEnd: nat)
      requires Valid() && c.stage in {GetCBlock, StoreCBlock} && CallOk(dstStart, dstPtr, dstEnd)
      requires |all| < c.target && all == m.phase.got + w
      requires FeedAll(m, w) == OnCollect(m, KBlock(c.info), c.target, all)
      modifies this`c, this`m
      ensures Valid() && CallOk(dstStart, dstPtr, dstEnd) && m == FeedAll(old(m), w) && m.out == old(m.out) && !Ended(m)
    {
      hide Sums, InCall, IsSum, Hist;
      KeepsSum(m, w);
      m := FeedAll(m, w);
      c := c.(stage := StoreCBlock, stored := all);
    }

    /** The checksum behind a compressed block. */
    method BlockSumOk(got: seq<byte>, n: nat) returns (ok: bool)
      requires IsSum(m.sum, rule, start) && n + CrcSize(c.info) == |got| && n > 0
      ensures ok <==> SumRight(m, c.info, got)
      ensures OnBlock(m, c.info, got) == if ok then OnBody(m, c.info, got[..n]) else m.(phase := Failed)
    {
      hide OnBody;
      ok := true;
      if c.info.blockCrc {
        var x := OneShot(rule, start, got[..n]);
        ok := ReadLE32(got[n..]) == x as nat;
      }
    }

    /** A compressed block has arrived: its checksum, if it has one, and its contents. */
    method CompleteBlock(all: seq<byte>, dstStart: nat, dstPtr: nat, dstEnd: nat) returns (ok: bool, end: nat)
      requires Valid() && c.stage in {GetCBlock, StoreCBlock} && CallOk(dstStart, dstPtr, dstEnd)
               && |all| == c.target > CrcSize(c.info)
      modifies this`c, this`b, this`m, this`sent, this`valid, mem, xxh, xxh.mem, blockXxh, blockXxh.mem
      ensures ok <==> BlockTaken(old(m), old(c.info), all, old(Adjoins(dstPtr, dstEnd)), old(b.dictSize))
      ensures !ok ==> Rejected(OnBlock(old(m), old(c.info), all))
      ensures ok ==> Valid() && m == OnBlock(old(m), old(c.info), all)
      ensures ok ==> dstPtr <= end <= dstEnd && CallOk(dstStart, end, dstEnd) && sent == old(sent) + (end - dstPtr)
      ensures ok ==> Untouched(old(mem[..]), mem[..], tob, dstPtr, dstEnd)
    {
      hide MemOk, InCall, Sums, SumsOk, OnBody, OnBlock, Rejected, StageOk, WellFormed, Untouched, SumRight,
           AcceptedAt, Adjoins;
      var n := |all| - CrcSize(c.info);
      ok := BlockSumOk(all, n);
      end := dstPtr;
      if ok {
        ok, end := DecodeBlock(all[..n], dstStart, dstPtr, dstEnd);
      } else {
        FailedIsRejected(m);
      }
    }

    /**
     Between the blocks of a linked frame, the last 64 KB of everything decoded so far (or all of it) end at dict +
     dictSize, and a block of the largest size fits the temporary buffer behind the largest history kept there.
     */
    lemma {:induction false} HistoryIsTail(k: nat)
      requires Valid() && c.info.linked && InBlocks(c.stage) && c.stage !in {FlushOut, GetSuffix, StoreSuffix}
      requires k == Min(KB64, |m.out|)
      ensures k > 0 ==> 0 <= b.dict && k <= b.dictSize && At(mem[..], b.dict + b.dictSize - k, LastBytes(m.out, k))
      ensures b.maxBuf >= c.info.maxBlock + 2 * KB64
    {
      hide IsSum, Sums, StageOk, KeptFlushing, Flushing, Hist, At;
      TailIsThere(mem[..], tob, b.maxBuf, b.dict, b.dictSize, m.out, valid, k);
    }

    /** dstage_getCBlock and dstage_storeCBlock: a compressed block, once all of it has arrived. */
    method StepBlock(src: seq<byte>, p: nat, dstStart: nat, dstPtr: nat, dstEnd: nat)
      returns (r: Outcome, q: nat, end: nat)
      requires Valid() && c.stage in {GetCBlock, StoreCBlock} && p <= |src| && CallOk(dstStart, dstPtr, dstEnd)
      modifies this`c, this`b, this`m, this`sent, this`valid, mem, xxh, xxh.mem, blockXxh, blockXxh.mem
      ensures Stepped(src, p, r, q) && r != Finished
      ensures r == Stop ==> q == |src|
      ensures p <= q <= |src| && old(m).phase.Collect?
      ensures r == Stop <==> |old(m).phase.got + src[p..q]| < old(c.target)
      ensures r != Stop ==> (r == Go <==> BlockTaken(old(m), old(c.info), old(m).phase.got + src[p..q],
                                                     old(Adjoins(dstPtr, dstEnd)), old(b.dictSize)))
      ensures r != Broken ==> Valid()
      ensures r != Broken ==>
                dstPtr <= end <= dstEnd && CallOk(dstStart, end, dstEnd) && sent == old(sent) + (end - dstPtr)
      ensures r != Broken ==> Untouched(old(mem[..]), mem[..], tob, dstPtr, dstEnd)
    {
      hide MemOk, InCall, IsSum, Sums, SumsOk, OnBlock, Rejected, Untouched, BlockTaken, Adjoins;
      var stored := if c.stage == GetCBlock then [] else c.stored;
      var all;
      all, q := Gather(stored, c.target, src, p);
      GatherFeeds(m, src, p, q);
      end := dstPtr;
      KeepsSum(m, src[p..q]);
      if |all| < c.target {
        KeepPart(all, src[p..q], dstStart, dstPtr, dstEnd);
        UntouchedSame(mem[..], tob, dstPtr, dstEnd);
        return Stop, q, dstPtr;
      }
      ghost var m0 := m;
      assert FeedAll(m0, src[p..q]) == OnBlock(m0, c.info, all);
      var ok;
      ok, end := CompleteBlock(all, dstStart, dstPtr, dstEnd);
      r := Go;
      if !ok {
        RejectedEarly(m0, src, p, q);
        r := Broken;
      }
    }

    /**
     The room a call offers decides over some blocks: where the history ends at the place to write to, a call with room
     for the largest block and a call without it agree on every block but those with a late match, which only the first
     takes.
     */
    lemma {:induction false} RoomDecides(got: seq<byte>, dstPtr: nat, dstEnd: nat, nearer: nat)
      requires Valid() && c.stage in {GetCBlock, StoreCBlock} && b.dict + b.dictSize == dstPtr && b.dict != tob
      requires nearer < dstPtr + c.info.maxBlock <= dstEnd
      ensures BlockTaken(m, c.info, got, Adjoins(dstPtr, nearer), b.dictSize) <==>
                && BlockTaken(m, c.info, got, Adjoins(dstPtr, dstEnd), b.dictSize)
                && !Late(got[..|got| - CrcSize(c.info)], 0, c.info.maxBlock, 0)
    {
      hide BlockTaken, Late, MemOk, SumsOk, IsSum;
      TakenElsewhere(m, c.info, got, b.dictSize);
    }

    /** In a frame of linked 64 KB blocks there is such a block: both calls may be made next, and one of them fails. */
    lemma {:induction false} RoomMatters(dstPtr: nat, dstEnd: nat, nearer: nat)
      requires Valid() && c.stage in {GetCBlock, StoreCBlock} && b.dict + b.dictSize == dstPtr && b.dict != tob
      requires nearer < dstPtr + c.info.maxBlock <= dstEnd && c.info.maxBlock == KB64 && !c.info.blockCrc
               && b.dictSize >= 17
      ensures BlockTaken(m, c.info, LateBlock64(), Adjoins(dstPtr, dstEnd), b.dictSize)
      ensures !BlockTaken(m, c.info, LateBlock64(), Adjoins(dstPtr, nearer), b.dictSize)
    {
      hide MemOk, SumsOk, IsSum, AcceptedAt, StageOk, WellFormed;
      PlaceDecides64(b.dictSize);
      var got := LateBlock64();
      assert got[..|got|] == got;
    }

    /** Flush what fits, and keep the history of linked blocks. */
    method FlushSome(dstStart: nat, dstPtr: nat, dstEnd: nat) returns (n: nat)
      requires c.stage == FlushOut && sent <= |m.out| && dstStart <= dstPtr <= dstEnd <= mem.Length
      requires MemOk(mem[..], tob, c, b, m, sent, valid)
      requires InCall(mem[..], tob, dstStart, dstPtr, dstEnd, m.out[..sent], b.dict, b.dictSize)
      modifies this`b, this`valid, mem
      ensures n == Min(old(b.tmpOutSize) - old(b.tmpOutStart), dstEnd - dstPtr) && sent + n <= |m.out|
      ensures MemOk(mem[..], tob, c, b, m, sent + n, valid)
      ensures b.tmpOutSize == old(b.tmpOutSize) && b.tmpOutStart == old(b.tmpOutStart) + n
      ensures InCall(mem[..], tob, dstStart, dstPtr + n, dstEnd, m.out[..sent + n], b.dict, b.dictSize)
      ensures Untouched(old(mem[..]), mem[..], tob, dstPtr, dstEnd)
    {
      hide InCall, KeptFlushing, Flushing, MemOk;
      PendingIsOk(mem[..], tob, c, b, m, sent, valid);
      if c.info.linked {
        var dict, size;
        ghost var v;
        n, dict, size, v := FlushLinked(mem, tob, b.maxBuf, b.dict, b.dictSize, dstStart, dstPtr, dstEnd,
                                        b.tmpOut, b.tmpOutSize, b.tmpOutStart, m.out, sent, valid);
        FlushFits(mem[..], tob, b.maxBuf, dict, size, m.out, sent + n, v, b.tmpOut, b.tmpOutSize, b.tmpOutStart + n);
        b, valid := b.(dict := dict, dictSize := size, tmpOutStart := b.tmpOutStart + n), v;
      } else {
        n := FlushAlone(mem, tob, b.maxBuf, b.dict, b.dictSize, dstStart, dstPtr, dstEnd, b.tmpOut, b.tmpOutSize,
                        b.tmpOutStart, m.out, sent);
        b := b.(tmpOutStart := b.tmpOutStart + n);
      }
      PendingIsOk(mem[..], tob, c, b, m, sent + n, valid);
    }

    /** dstage_flushOut. */
    method StepFlush(ghost src: seq<byte>, ghost p: nat, dstStart: nat, dstPtr: nat, dstEnd: nat)
      returns (r: Outcome, end: nat)
      requires Valid() && c.stage == FlushOut && CallOk(dstStart, dstPtr, dstEnd) && p <= |src|
      modifies this`c, this`b, this`sent, this`valid, mem
      ensures Valid() && r in {Go, Stop} && Stepped(src, p, r, p)
      ensures r == Stop ==> end == dstEnd
      ensures dstPtr <= end <= dstEnd && CallOk(dstStart, end, dstEnd) && sent == old(sent) + (end - dstPtr)
      ensures Untouched(old(mem[..]), mem[..], tob, dstPtr, dstEnd)
    {
      hide MemOk, InCall, IsSum, Sums, StageOk, Ended, Untouched, WellFormed;
      BlocksMayStart(c, c.(stage := GetBlockHeader), m);
      assert src[p..p] == [];
      FlushingLeft(mem[..], tob, c, b, m, sent, valid);
      var n := FlushSome(dstStart, dstPtr, dstEnd);
      FlushingLeft(mem[..], tob, c, b, m, sent + n, valid);
      sent, end, r := sent + n, dstPtr + n, Stop;
      if b.tmpOutStart == b.tmpOutSize {
        AllFlushed(mem[..], tob, c, b, m, valid);
        r, c := Go, c.(stage := GetBlockHeader);
      }
    }

    /** A stage that looks at a field of the input. */
    method StepField(src: seq<byte>, p: nat, ghost dstStart: nat, dstPtr: nat, dstEnd: nat) returns (r: Outcome, q: nat)
      requires Valid() && p <= |src| && CallOk(dstStart, dstPtr, dstEnd)
      requires c.stage !in {Init, CopyDirect, GetCBlock, StoreCBlock, FlushOut}
      modifies this`c, this`m, this`blockXxh
      ensures Stepped(src, p, r, q) && fresh(Repr() - old(Repr()))
      ensures r == Stop ==> q == |src| || dstPtr == dstEnd
      ensures r in {Go, Stop} ==> Valid()
      ensures r == Finished ==> c.remaining == 0 && Separate()
      ensures r != Broken ==> m.out == old(m.out) && CallOk(dstStart, dstPtr, dstEnd)
    {
      hide InCall, MemOk, IsSum, Sums, PhaseOf, SideOk, Rejected, Ended;
      match c.stage {
        case GetFrameHeader | StoreFrameHeader => r, q := StepHeader(src, p);
        case GetBlockHeader | StoreBlockHeader => r, q := StepBlockHeader(src, p, dstStart, dstPtr, dstEnd);
        case GetBlockChecksum => r, q := StepBlockChecksum(src, p);
        case GetSuffix | StoreSuffix => r, q := StepSuffix(src, p);
        case GetSFrameSize | StoreSFrameSize | SkipSkippable => r, q := StepSkip(src, p);
      }
    }

    /** A stage that produces output. */
    method StepOutput(src: seq<byte>, p: nat, dstStart: nat, dstPtr: nat, dstEnd: nat)
      returns (r: Outcome, q: nat, end: nat)
      requires Valid() && p <= |src| && CallOk(dstStart, dstPtr, dstEnd)
      requires c.stage in {CopyDirect, GetCBlock, StoreCBlock, FlushOut}
      modifies this`c, this`b, this`m, this`sent, this`valid, mem, xxh, xxh.mem, blockXxh, blockXxh.mem
      ensures Stepped(src, p, r, q) && r != Finished
      ensures r == Stop ==> q == |src| || end == dstEnd
      ensures r != Broken ==> Valid()
      ensures r != Broken ==>
                dstPtr <= end <= dstEnd && CallOk(dstStart, end, dstEnd) && sent == old(sent) + (end - dstPtr)
      ensures r != Broken ==> Untouched(old(mem[..]), mem[..], tob, dstPtr, dstEnd)
    {
      assert WellFormed(m);
      hide Decoder.Valid, Decoder.CallOk, Rejected, WellFormed, Decoder.Stepped, Untouched, Decoder.Separate;
      q := p;
      if c.stage == CopyDirect {
        r, q, end := StepCopy(src, p, dstStart, dstPtr, dstEnd);
      } else if c.stage == FlushOut {
        r, end := StepFlush(src, p, dstStart, dstPtr, dstEnd);
      } else {
        r, q, end := StepBlock(src, p, dstStart, dstPtr, dstEnd);
      }
    }

    /** One turn of the loop: whatever the stage calls for. */
    method Step(src: seq<byte>, p: nat, dstStart: nat, dstPtr: nat, dstEnd: nat) returns (r: Outcome, q: nat, end: nat)
      requires Valid() && p <= |src| && CallOk(dstStart, dstPtr, dstEnd)
      modifies Repr()
      ensures Stepped(src, p, r, q) && fresh(Repr() - old(Repr()))
      ensures r == Stop ==> q == |src| || end == dstEnd
      ensures r in {Go, Stop} ==> Valid()
      ensures r == Finished ==> c.remaining == 0 && m.out == old(m.out) && end == dstPtr && Separate()
      ensures r == Finished ==> old(c.stage) != FlushOut && b == old(b)
      ensures r != Broken ==>
                dstPtr <= end <= dstEnd && CallOk(dstStart, end, dstEnd) && sent == old(sent) + (end - dstPtr)
      ensures r != Broken ==> Untouched(old(mem[..]), mem[..], tob, dstPtr, dstEnd)
    {
      assert WellFormed(m) && dstPtr <= dstEnd && Separate();
      UntouchedSame(mem[..], tob, dstPtr, dstEnd);
      hide Decoder.Valid, Decoder.CallOk, Rejected, WellFormed, Decoder.Stepped, Untouched, Decoder.Separate;
      q, end := p, dstPtr;
      if c.stage == Init {
        StepInit(src, p, dstStart, dstPtr, dstEnd);
        r := Go;
      } else if c.stage in {CopyDirect, GetCBlock, StoreCBlock, FlushOut} {
        r, q, end := StepOutput(src, p, dstStart, dstPtr, dstEnd);
      } else {
        r, q := StepField(src, p, dstStart, dstPtr, dstEnd);
      }
    }

    /** The history that the next call will need lies in one of the caller's buffers. */
    predicate Outlying()
      reads this
    {
      InBlocks(c.stage) && c.stage !in {GetSuffix, StoreSuffix} && c.info.linked && b.dict != tob
    }

    /**
     At the end of a call: history in the caller's buffer moves to the temporary one, unless that buffer is stable.
     */
    method EndCall(stableDst: bool)
      requires Valid()
      modifies this`b, this`valid, mem
      ensures Valid() && (!stableDst ==> !Outlying())
      ensures stableDst ==> b == old(b)
      ensures forall j :: 0 <= j < mem.Length && !(tob <= j < tob + RESERVED) ==> mem[j] == old(mem[j])
    {
      hide IsSum, Sums, Joins, StageOk, WellFormed, Hist, Flushing;
      if stableDst || !Outlying() {
        return;
      }
      if c.stage == FlushOut {
        HistShape(mem[..], tob, b.maxBuf, b.dict, b.dictSize, m.out[..sent], |m.out| - sent, valid);
        FlushShape(mem[..], tob, b.maxBuf, b.dict, b.dictSize, m.out, sent, valid, b.tmpOut, b.tmpOutSize,
                   b.tmpOutStart);
        valid := SaveWithinTmp(mem, tob, b.maxBuf, b.dict, b.dictSize, b.tmpOut, b.tmpOutSize, b.tmpOutStart, m.out,
                               sent, 0);
        b := b.(dict := tob, dictSize := b.tmpOut - tob + b.tmpOutStart);
        HistShape(mem[..], tob, b.maxBuf, tob, b.dictSize, m.out[..sent], |m.out| - sent, valid);
      } else {
        HistShape(mem[..], tob, b.maxBuf, b.dict, b.dictSize, m.out, 0, valid);
        var size := SaveHistory(mem, tob, b.maxBuf, b.dict, b.dictSize, m.out);
        valid := size;
        b := b.(dict := tob, dictSize := size, tmpOut := tob + size);
        HistShape(mem[..], tob, b.maxBuf, tob, size, m.out, 0, size);
      }
    }

    /** LZ4F_resetDecompressionContext, after a complete frame. */
    method Reset()
      requires IsSum(m.sum, rule, start) && !rule.wide && Separate() && c.remaining == 0
      requires tob + RESERVED <= mem.Length && b.maxBuf <= RESERVED
      modifies this`c, this`b, this`m, this`sent
      ensures Valid() && m == Initial(old(m.sum)) && sent == 0 && !Outlying()
    {
      c := c.(stage := GetFrameHeader);
      b := b.(dict := -1, dictSize := 0);
      m, sent := Initial(m.sum), 0;
    }

    /** What a call does last. */
    method CloseCall(done: bool, stableDst: bool)
      requires IsSum(m.sum, rule, start) && !rule.wide && tob + RESERVED <= mem.Length && b.maxBuf <= RESERVED
      requires if done then Separate() && c.remaining == 0 else Valid()
      modifies this`c, this`b, this`m, this`sent, this`valid, mem
      ensures Valid() && (!stableDst ==> !Outlying())
      ensures if done then m == Initial(old(m.sum)) && sent == 0 else m == old(m) && sent == old(sent)
      ensures forall j :: 0 <= j < mem.Length && !(tob <= j < tob + RESERVED) ==> mem[j] == old(mem[j])
    {
      hide Decoder.Valid, IsSum;
      if done {
        Reset();
      }
      EndCall(stableDst);
    }

    /** Run stages until one of them has to wait, completes the frame or finds the input invalid. */
    method RunStages(src: seq<byte>, dst: nat, dstEnd: nat) returns (r: Outcome, p: nat, end: nat)
      requires Valid() && CallOk(dst, dst, dstEnd)
      modifies Repr()
      ensures r != Go && fresh(Repr() - old(Repr()))
      ensures if r == Broken then Rejected(FeedAll(old(m), src)) else p <= |src| && m == FeedAll(old(m), src[..p])
      ensures r == Stop ==> Valid() && !Ended(m) && (p == |src| || end == dstEnd)
      ensures r == Finished ==> c.remaining == 0 && m.phase == Done && sent == |m.out| && Separate()
      ensures r == Finished ==> tob + RESERVED <= mem.Length && b.maxBuf <= RESERVED
      ensures r != Broken ==> dst <= end <= dstEnd && CallOk(dst, end, dstEnd) && sent == old(sent) + (end - dst)
      ensures r != Broken ==> m.sum == old(m.sum) && Untouched(old(mem[..]), mem[..], tob, dst, dstEnd)
    {
      hide InCall, MemOk, IsSum, Sums, SumsOk, StageOk, Rejected, FeedAll, Ended;
      ghost var m0, s0 := m, mem[..];
      r, p, end := Go, 0, dst;
      NothingFed(m, src);
      while r == Go
        invariant r != Broken && p <= |src| && m == FeedAll(m0, src[..p]) && fresh(Repr() - old(Repr()))
        invariant r != Finished ==> Valid()
        invariant r == Stop ==> !Ended(m) && (p == |src| || end == dstEnd)
        invariant r == Finished ==> c.remaining == 0 && m.phase == Done && sent == |m.out| && Separate()
        invariant r == Finished ==> tob + RESERVED <= mem.Length && b.maxBuf <= RESERVED
        invariant dst <= end <= dstEnd && CallOk(dst, end, dstEnd) && sent == old(sent) + (end - dst)
        invariant m.sum == m0.sum && Untouched(s0, mem[..], tob, dst, dstEnd)
        decreases r == Go, |src| - p, Rank(c.stage)
      {
        var q;
        BufferFits(mem[..], tob, c, b, m, sent, valid);
        r, q, end := Step(src, p, dst, end, dstEnd);
        Joined(m0, src, p, q, r);
        if r == Broken {
          return;
        }
        p := q;
      }
    }

    /** The caller may write here: away from the temporary buffer and from history that is still needed. */
    predicate MayWrite(at: nat, size: nat)
      reads this
    {
      && at + size <= mem.Length && Apart(at, size, tob)
      && (Outlying() && b.dictSize > 0 ==> b.dict + b.dictSize <= at || at + size <= b.dict)
    }

    lemma {:induction false} CallStarts(dst: nat, cap: nat)
      requires Valid() && MayWrite(dst, cap)
      ensures CallOk(dst, dst, dst + cap)
    {
      hide IsSum, Sums, PhaseOf, SideOk, KeptFlushing, Hist, Flushing;
      assert LastBytes(m.out[..sent], 0) == [];
    }

    /** The end of a call that did not fail: what it wrote is the output that was due. */
    method Conclude(ghost dst: nat, ghost end: nat, ghost dstEnd: nat, done: bool, stableDst: bool)
      requires IsSum(m.sum, rule, start) && !rule.wide && tob + RESERVED <= mem.Length && b.maxBuf <= RESERVED
      requires if done then Separate() && c.remaining == 0 else Valid()
      requires dst <= end <= dstEnd && CallOk(dst, end, dstEnd)
      modifies this`c, this`b, this`m, this`sent, this`valid, mem
      ensures Valid() && (!stableDst ==> !Outlying())
      ensures if done then m == Initial(old(m.sum)) && sent == 0 else m == old(m) && sent == old(sent)
      ensures end - dst <= old(sent) <= |old(m.out)| && end <= mem.Length
      ensures mem[dst..end] == old(m.out)[old(sent) - (end - dst)..old(sent)]
      ensures forall j :: 0 <= j < mem.Length && !(tob <= j < tob + RESERVED) ==> mem[j] == old(mem[j])
    {
      hide Decoder.Valid, InCall, IsSum, Apart;
      InCallOutput(mem[..], tob, dst, end, dstEnd, m.out[..sent], b.dict, Live());
      ghost var s0, w := mem[..], m.out[sent - (end - dst)..sent];
      assert m.out[..sent][sent - (end - dst)..] == w;
      CloseCall(done, stableDst);
      StillThere(s0, mem[..], tob, dst, end, dstEnd);
      assert mem[dst..end] == mem[..][dst..end];
    }

    /**
     LZ4F_decompress. `consumed` and `produced` are the new values of *srcSizePtr and *dstSizePtr; `done` means that
     the size hint is 0.
     */
    method Decompress(src: seq<byte>, dst: nat, cap: nat, stableDst: bool)
      returns (ok: bool, done: bool, consumed: nat, produced: nat)
      requires Valid() && MayWrite(dst, cap)
      modifies Repr()
      ensures fresh(Repr() - old(Repr()))
      ensures !ok ==> Rejected(FeedAll(old(m), src)) && (!old(Ended(m)) ==> Refused(old(m), src))
      ensures ok ==> !Ended(m)
      ensures ok ==> Valid() && consumed <= |src| && produced <= cap && (!stableDst ==> !Outlying())
      ensures ok ==> Untouched(old(mem[..]), mem[..], tob, dst, dst + cap)
      ensures ok ==> Produced(old(m), old(sent), src[..consumed], mem[dst..dst + produced], done, m, sent)
      ensures ok && !done ==> consumed == |src| || produced == cap
    {
      hide InCall, MemOk, IsSum, Sums, SumsOk, StageOk, Rejected, Refused, Apart, PhaseOf, FeedAll, WellFormed;
      CallStarts(dst, cap);
      ghost var m0 := m;
      var r, end;
      r, consumed, end := RunStages(src, dst, dst + cap);
      if r == Broken {
        if !Ended(m0) {
          RejectedIsRefused(m0, src);
        }
        return false, false, 0, 0;
      }
      if r == Stop {
        BufferFits(mem[..], tob, c, b, m, sent, valid);
      }
      ok, done, produced := true, r == Finished, end - dst;
      Conclude(dst, end, dst + cap, done, stableDst);
    }

    /** Between calls the caller does what it likes with its own memory. */
    method CallerWrites(at: nat, bytes: seq<byte>)
      requires Valid() && MayWrite(at, |bytes|)
      modifies mem
      ensures Valid()
    {
      hide IsSum, Sums, PhaseOf, SideOk;
      ghost var s0 := mem[..];
      CopyIn(mem, at, bytes, 0, |bytes|);
      WritesElsewhere(s0, mem[..], tob, c, b, m, sent, valid, at, at + |bytes|);
    }
  }

  /** What a call that fed `s` to the machine has to show for it. */
  ghost predicate Produced(m0: Machine, sent0: nat, s: seq<byte>, w: seq<byte>, done: bool, m: Machine, sent: nat)
    requires WellFormed(m0)
  {
    var m1 := FeedAll(m0, s);
    && sent0 + |w| <= |m1.out| && w == m1.out[sent0..sent0 + |w|]
    && (done <==> m1.phase == Done)
    && if done then m == Initial(m0.sum) && sent == 0 && sent0 + |w| == |m1.out|
       else m == m1 && !Ended(m) && sent == sent0 + |w|
  }

  /** What the caller's buffer has received. */
  lemma {:induction false} InCallOutput(s: seq<byte>, tob: nat, dst: nat, end: nat, dstEnd: nat, e: seq<byte>,
                                        dict: int, dictSize: nat)
    requires InCall(s, tob, dst, end, dstEnd, e, dict, dictSize)
    ensures dst <= end <= dstEnd <= |s| && end - dst <= |e| && s[dst..end] == e[|e| - (end - dst)..]
            && Apart(dst, dstEnd - dst, tob)
  {
  }

  /** The caller's buffer when only the temporary one has changed. */
  lemma {:induction false} StillThere(s0: seq<byte>, s: seq<byte>, tob: nat, dst: nat, end: nat, dstEnd: nat)
    requires |s| == |s0| && dst <= end <= dstEnd <= |s| && Apart(dst, dstEnd - dst, tob)
    requires forall j :: 0 <= j < |s| && !(tob <= j < tob + RESERVED) ==> s[j] == s0[j]
    ensures s[dst..end] == s0[dst..end]
  {
  }

  lemma {:induction false} WritesElsewhere(s0: seq<byte>, s: seq<byte>, tob: nat, c: Ctx, b: Buffers, m: Machine,
                                           sent: nat, valid: nat, lo: nat, hi: nat)
    requires MemOk(s0, tob, c, b, m, sent, valid) && |s| == |s0| && (hi < tob || tob + RESERVED < lo) && lo <= hi
    requires forall j :: 0 <= j < |s| && !(lo <= j < hi) ==> s[j] == s0[j]
    requires InBlocks(c.stage) && c.stage !in {GetSuffix, StoreSuffix} && c.info.linked && b.dict != tob
             && b.dictSize > 0 ==>
               b.dict + b.dictSize <= lo || hi <= b.dict
    ensures MemOk(s, tob, c, b, m, sent, valid)
  {
    hide Hist, KeptFlushing, Flushing;
    if InBlocks(c.stage) && c.info.linked && c.stage !in {GetSuffix, StoreSuffix} {
      if c.stage == FlushOut {
        FlushPlace(s0, tob, b.maxBuf, b.dict, b.dictSize, m.out, sent, valid, b.tmpOut, b.tmpOutSize, b.tmpOutStart);
        FlushingStays(s0, s, tob, b.maxBuf, b.dict, b.dictSize, m.out, sent, valid, b.tmpOut, b.tmpOutSize,
                      b.tmpOutStart, lo, hi);
      } else {
        HistShape(s0, tob, b.maxBuf, b.dict, b.dictSize, m.out, 0, valid);
        HistStays(s0, s, tob, b.maxBuf, b.dict, b.dictSize, m.out, 0, valid, lo, hi, 0);
      }
    } else if c.stage == FlushOut {
      BlockStays(s0, s, tob, b.maxBuf, b.tmpOut, b.tmpOutSize, b.tmpOutStart, m.out, sent, lo, hi);
    }
  }

  lemma {:induction false} BlockStays(s0: seq<byte>, s: seq<byte>, tob: nat, maxBuf: nat, tmpOut: nat, size: nat,
                                      start: nat, out: seq<byte>, sent: nat, lo: nat, hi: nat)
    requires Flushing(s0, tob, maxBuf, tmpOut, size, start, out, sent) && |s| == |s0|
             && (hi < tob || tob + RESERVED < lo)
    requires forall j :: 0 <= j < |s| && !(lo <= j < hi) ==> s[j] == s0[j]
    ensures Flushing(s, tob, maxBuf, tmpOut, size, start, out, sent)
  {
    AtUnchanged(s0, s, tmpOut, LastBytes(out, size));
  }

  lemma {:induction false} FlushPlace(s: seq<byte>, tob: nat, maxBuf: nat, dict: int, dictSize: nat, out: seq<byte>,
                                      sent: nat, valid: nat, tmpOut: nat, size: nat, start: nat)
    requires KeptFlushing(s, tob, maxBuf, dict, dictSize, out, sent, valid, tmpOut, size, start)
    ensures maxBuf <= RESERVED && (dict == tob ==> dictSize <= maxBuf)
  {
  }

  lemma {:induction false} BufferFits(s: seq<byte>, tob: nat, c: Ctx, b: Buffers, m: Machine, sent: nat, valid: nat)
    requires MemOk(s, tob, c, b, m, sent, valid)
    ensures tob + RESERVED <= |s| && b.maxBuf <= RESERVED
  {
  }

  lemma NothingMore(m: Machine, src: seq<byte>, p: nat)
    requires WellFormed(m) && p <= |src|
    ensures FeedAll(m, src[p..p]) == m
  {
    assert src[p..p] == [];
  }

  lemma NothingFed(m: Machine, src: seq<byte>)
    requires WellFormed(m)
    ensures FeedAll(m, src[..0]) == m
  {
  }

  /** One more step of a run. */
  lemma {:induction false} Joined(m: Machine, src: seq<byte>, p: nat, q: nat, r: Outcome)
    requires WellFormed(m) && p <= |src|
    ensures p <= q <= |src| ==> FeedAll(m, src[..q]) == FeedAll(FeedAll(m, src[..p]), src[p..q])
    ensures r == Broken && Rejected(FeedAll(FeedAll(m, src[..p]), src[p..])) ==> Rejected(FeedAll(m, src))
  {
    FeedAllSplit(m, src, p);
    if p <= q <= |src| {
      assert src[..q] == src[0..q] && src[..p] == src[0..p];
      FeedSplit(m, src, 0, p, q);
    }
  }

  /** The next thing to come is a block header, whether it was the frame header or a block that ended. */
  lemma {:induction false} BlocksMayStart(c: Ctx, c1: Ctx, m: Machine)
    requires StageOk(c, m) && c.stage in {Init, FlushOut} && c1.stage == GetBlockHeader && c1.info == c.info
             && c1.remaining == c.remaining
    ensures StageOk(c1, m) && !Ended(m) && (c.stage == Init ==> KB64 <= c.info.maxBlock <= 0x40_0000)
  {
  }

  /** A new frame starts without history, in a temporary buffer that is large enough. */
  lemma {:induction false} MemoryAtStart(s: seq<byte>, tob: nat, c: Ctx, c1: Ctx, b: Buffers, maxBuf: nat, m: Machine,
                                         sent: nat, valid: nat)
    requires MemOk(s, tob, c, b, m, sent, valid) && c.stage == Init && c1.stage == GetBlockHeader && c1.info == c.info
    requires c.info.maxBlock <= 0x40_0000
    requires maxBuf == if BufferNeeded(c.info) > b.maxBuf then BufferNeeded(c.info) else b.maxBuf
    ensures MemOk(s, tob, c1, Buffers(maxBuf, b.dict, b.dictSize, tob, 0, 0), m, sent, 0) && m.out == []
  {
  }

  lemma UntouchedSame(s: seq<byte>, tob: nat, dstPtr: nat, dstEnd: nat)
    ensures Untouched(s, s, tob, dstPtr, dstEnd)
  {
  }

  lemma {:induction false} FlushingLeft(s: seq<byte>, tob: nat, c: Ctx, b: Buffers, m: Machine, sent: nat, valid: nat)
    requires MemOk(s, tob, c, b, m, sent, valid) && c.stage == FlushOut
    ensures b.tmpOutStart <= b.tmpOutSize && sent + b.tmpOutSize == |m.out| + b.tmpOutStart
  {
  }

  /** Nothing is left to flush: the next block may come. */
  lemma {:induction false} AllFlushed(s: seq<byte>, tob: nat, c: Ctx, b: Buffers, m: Machine, valid: nat)
    requires MemOk(s, tob, c, b, m, |m.out|, valid) && c.stage == FlushOut
    ensures MemOk(s, tob, c.(stage := GetBlockHeader), b, m, |m.out|, valid)
  {
    hide Hist, Flushing, Joins;
    assert m.out[..|m.out|] == m.out;
  }

  lemma {:induction false} FlushFits(s: seq<byte>, tob: nat, maxBuf: nat, dict: int, dictSize: nat, out: seq<byte>,
                                     sent: nat, valid: nat, tmpOut: nat, size: nat, start: nat)
    requires KeptFlushing(s, tob, maxBuf, dict, dictSize, out, sent, valid, tmpOut, size, start)
    ensures dict + dictSize <= |s| && sent <= |out|
  {
  }

  lemma {:induction false} InCallWithout(s: seq<byte>, tob: nat, dstStart: nat, dstPtr: nat, dstEnd: nat, e: seq<byte>,
                                         dict: int, dictSize: nat)
    requires InCall(s, tob, dstStart, dstPtr, dstEnd, e, dict, dictSize)
    ensures InCall(s, tob, dstStart, dstPtr, dstEnd, e, dict, 0)
  {
  }

  lemma FailedIsRejected(m: Machine)
    ensures Rejected(m.(phase := Failed))
  {
  }

  lemma {:induction false} RejectedEarly(m: Machine, src: seq<byte>, p: nat, q: nat)
    requires WellFormed(m) && p <= q <= |src| && Rejected(FeedAll(m, src[p..q]))
    ensures Rejected(FeedAll(m, src[p..]))
  {
    FeedSplit(m, src, p, q, |src|);
    assert src[p..] == src[p..|src|] && src[q..] == src[q..|src|];
    RejectedStays(FeedAll(m, src[p..q]), src[q..]);
  }

  /** A block waits in the temporary buffer; `sent` bytes of `out` have been delivered. */
  ghost predicate PendingIn(s: seq<byte>, tob: nat, info: Info, b: Buffers, out: seq<byte>, sent: nat, valid: nat) {
    && tob + RESERVED <= |s| && b.maxBuf <= RESERVED && b.dict + b.dictSize <= |s| && b.maxBuf >= BufferNeeded(info)
    && if info.linked then
         KeptFlushing(s, tob, b.maxBuf, b.dict, b.dictSize, out, sent, valid, b.tmpOut, b.tmpOutSize, b.tmpOutStart)
       else
         && b.dictSize == 0 && b.tmpOut == tob
         && Flushing(s, tob, b.maxBuf, b.tmpOut, b.tmpOutSize, b.tmpOutStart, out, sent)
  }

  lemma {:induction false} PendingIsOk(s: seq<byte>, tob: nat, c: Ctx, b: Buffers, m: Machine, sent: nat, valid: nat)
    requires c.stage == FlushOut
    ensures PendingIn(s, tob, c.info, b, m.out, sent, valid) <==> MemOk(s, tob, c, b, m, sent, valid)
  {
  }

  lemma {:induction false} InCallKept(s0: seq<byte>, s: seq<byte>, tob: nat, dstStart: nat, dstPtr: nat, dstEnd: nat,
                                      e: seq<byte>, b0: Buffers, b: Buffers)
    requires InCall(s0, tob, dstStart, dstPtr, dstEnd, e, b0.dict, b0.dictSize) && |s| == |s0|
    requires forall j :: 0 <= j < |s| && !(tob <= j < tob + RESERVED) ==> s[j] == s0[j]
    requires b.dict == b0.dict && (b.dict != tob ==> b.dictSize == b0.dictSize)
    ensures InCall(s, tob, dstStart, dstPtr, dstEnd, e, b.dict, b.dictSize)
  {
    InCallStays(s0, s, tob, dstStart, dstPtr, dstEnd, e, b0.dict, b0.dictSize, tob, tob + RESERVED);
  }

  /** A compressed block is taken: its checksum is right, and the block decoder accepts it where the history stands. */
  ghost predicate BlockTaken(m: Machine, info: Info, got: seq<byte>, adjoins: bool, size: nat) {
    && |got| > CrcSize(info)
    && SumRight(m, info, got)
    && AcceptedAt(got[..|got| - CrcSize(info)], info.maxBlock, adjoins, size)
  }

  /** Of two places for a block, the one away from the history refuses exactly the blocks with a late match. */
  lemma {:induction false} TakenElsewhere(m: Machine, info: Info, got: seq<byte>, size: nat)
    requires info.maxBlock > 0
    ensures BlockTaken(m, info, got, false, size) <==>
              && BlockTaken(m, info, got, true, size)
              && !Late(got[..|got| - CrcSize(info)], 0, info.maxBlock, 0)
  {
    if |got| > CrcSize(info) {
      PlacementDecidesBlock(got[..|got| - CrcSize(info)], info.maxBlock, ReachOf(true, size), 0, 0, size);
    }
  }

  /** A decoded block is what the machine makes of its body. */
  lemma {:induction false} BodyDecoded(m: Machine, info: Info, body: seq<byte>, s: seq<byte>, dst: nat, adjoins: bool,
                                       size: nat, k: int)
    requires BlockDecoded(body, HistoryOf(m, info), s, dst, info.maxBlock, adjoins, size, k)
    ensures k >= 0 <==> AcceptedAt(body, info.maxBlock, adjoins, size)
    ensures k < 0 ==> Rejected(OnBody(m, info, body))
    ensures k >= 0 ==>
              && k <= info.maxBlock && dst + k <= |s| && BlockOk(m, info, body)
              && BlockOutput(m, info, body) == s[dst..dst + k]
  {
    var h := HistoryOf(m, info);
    if k >= 0 {
      assert (h + s[dst..dst + k])[|h|..] == s[dst..dst + k];
    }
  }

  /** The context after `n` bytes of an uncompressed block. */
  function AfterCopy(c: Ctx, n: nat): Ctx
    requires n <= c.target
  {
    var c1 := c.(remaining := if c.info.contentSize == 0 then c.remaining else (c.remaining - n) % TWO64);
    if n < c.target then c1.(target := c.target - n)
    else if c.info.blockCrc then c1.(stage := GetBlockChecksum, stored := [])
    else c1.(stage := GetBlockHeader)
  }

  lemma StillRemaining(info: Info, produced: nat, n: nat)
    requires info.contentSize != 0
    ensures (Remaining(info, produced) - n) % TWO64 == Remaining(info, produced + n)
  {
  }

  lemma {:induction false} AfterCopyOk(c: Ctx, m: Machine, w: seq<byte>)
    requires c.stage == CopyDirect && StageOk(c, m) && WellFormed(m) && |w| <= c.target
    ensures var c1, m1 := AfterCopy(c, |w|), FeedAll(m, w);
            && StageOk(c1, m1) && m1.out == m.out + w && c.target > 0 && m.phase.Raw? && !Ended(m1)
            && c1.info == c.info && c1.stage in {CopyDirect, GetBlockChecksum, GetBlockHeader}
            && (c1.stage == GetBlockChecksum ==> c.info.blockCrc)
            && (c1.stage != GetBlockHeader ==> RawData(m1) == m.phase.data + w)
  {
    hide HeaderTargetOk, SkipSizeOk, OnEndMark, FeedAll;
    FeedRaw(m, c.info, c.target, m.phase.data, w);
    if c.info.contentSize != 0 {
      StillRemaining(c.info, |m.out|, |w|);
    }
    if w == [] {
      assert m.out + w == m.out && m.phase.data + w == m.phase.data;
    }
  }

  /** What memory must hold between two blocks, when `out` has been decoded and delivered. */
  ghost predicate BetweenBlocks(s: seq<byte>, tob: nat, info: Info, b: Buffers, out: seq<byte>, valid: nat) {
    && tob + RESERVED <= |s| && b.maxBuf <= RESERVED && b.dict + b.dictSize <= |s| && b.maxBuf >= BufferNeeded(info)
    && (if info.linked then Hist(s, tob, b.maxBuf, b.dict, b.dictSize, out, 0, valid)
        else b.dictSize == 0 && b.tmpOut == tob)
  }

  lemma {:induction false} BetweenIsOk(s: seq<byte>, tob: nat, c: Ctx, b: Buffers, m: Machine, valid: nat)
    requires BetweenBlocks(s, tob, c.info, b, m.out, valid) && InBlocks(c.stage) && c.stage != FlushOut
    ensures MemOk(s, tob, c, b, m, |m.out|, valid)
  {
  }

  /** Stages between blocks that need the same of memory. */
  lemma {:induction false} SameMemory(s: seq<byte>, tob: nat, c: Ctx, c1: Ctx, b: Buffers, m: Machine, m1: Machine,
                                      sent: nat, valid: nat)
    requires MemOk(s, tob, c, b, m, sent, valid) && InBlocks(c.stage) && c.stage != FlushOut
    requires c.stage in {GetSuffix, StoreSuffix} ==> c1.stage in {GetSuffix, StoreSuffix}
    requires InBlocks(c1.stage) && c1.stage != FlushOut && c1.info == c.info && m1.out == m.out
    ensures MemOk(s, tob, c1, b, m1, sent, valid)
  {
  }

  /** Stages before the first block need nothing but the buffers. */
  lemma {:induction false} HeaderMemory(s: seq<byte>, tob: nat, c: Ctx, c1: Ctx, b: Buffers, m: Machine, m1: Machine,
                                        sent: nat, valid: nat)
    requires MemOk(s, tob, c, b, m, sent, valid) && InHeader(c.stage)
    requires !InBlocks(c1.stage) && m1.out == m.out
    ensures MemOk(s, tob, c1, b, m1, sent, valid)
  {
  }

  lemma {:induction false} KeepsSum(m: Machine, s: seq<byte>)
    requires WellFormed(m)
    ensures FeedAll(m, s).sum == m.sum
    decreases |s|
  {
    if s != [] {
      KeepsSum(Feed(m, s[0]), s[1..]);
    }
  }
}
