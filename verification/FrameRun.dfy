/**
 Decoding a whole frame through any number of calls. However the input and the output space are cut up, and whatever
 the caller writes to its own memory in between, the result is what the byte-fed machine makes of the frame.
 */
module FrameRun {
  import opened Bytes
  import opened XxStripes
  import Xxh32
  import opened FrameFormat
  import opened FrameHistory
  import opened FrameStages
  import opened FrameBlocks
  import opened FrameDecoder
  import FrameWriter

  /**
   One call: how much more input it offers, where it wants its output, whether that place will stay as it is; before the
   call the caller writes `scratch` at `at`.
   */
  datatype Call = Call(size: nat, dst: nat, cap: nat, stable: bool, at: nat, scratch: seq<byte>)

  /** Offers input and room. */
  predicate Productive(k: Call) {
    k.size > 0 && k.cap > 0
  }

  /** Uses nothing but its own memory, and makes no promise about it. */
  predicate Polite(k: Call, tob: nat, limit: nat) {
    && !k.stable && k.dst + k.cap <= limit && k.at + |k.scratch| <= limit
    && Apart(k.dst, k.cap, tob) && Apart(k.at, |k.scratch|, tob)
  }

  predicate AllProductive(calls: seq<Call>) {
    forall i :: 0 <= i < |calls| ==> Productive(calls[i])
  }

  predicate AllPolite(calls: seq<Call>, tob: nat, limit: nat) {
    forall i :: 0 <= i < |calls| ==> Polite(calls[i], tob, limit)
  }

  /**
   How a run ended: with the frame complete, short of calls, on invalid input, or because live history was to be
   overwritten.
   */
  datatype End = Complete | Short | Invalid | Misused

  /** What one run has consumed and produced, compared with the machine. */
  ghost predicate Matches(m0: Machine, frame: seq<byte>, end: End, p: nat, output: seq<byte>)
    requires WellFormed(m0)
  {
    match end
    case Invalid => Refused(m0, frame)
    case Complete => p <= |frame| && FeedAll(m0, frame[..p]).phase == Done && output == FeedAll(m0, frame[..p]).out
    case _ => p <= |frame| && !Ended(FeedAll(m0, frame[..p])) && output <= FeedAll(m0, frame[..p]).out
  }

  /** The state of a run that has not ended. */
  ghost predicate Underway(d: Decoder, m0: Machine, frame: seq<byte>, p: nat, output: seq<byte>)
    reads d, d.Repr()
    requires WellFormed(m0)
  {
    && d.Valid() && p <= |frame| && d.m == FeedAll(m0, frame[..p]) && !Ended(d.m)
    && d.sent <= |d.m.out| && output == d.m.out[..d.sent]
  }

  /** The piece of input that a call is given starts where the last one stopped. */
  function Piece(frame: seq<byte>, p: nat, size: nat): seq<byte>
    requires p <= |frame|
  {
    frame[p..p + Min(size, |frame| - p)]
  }

  /** One call of a run. */
  method OneCall(d: Decoder, frame: seq<byte>, p: nat, output: seq<byte>, k: Call, ghost m0: Machine)
    returns (go: bool, end: End, q: nat, more: seq<byte>)
    requires WellFormed(m0) && !Ended(m0) && Underway(d, m0, frame, p, output)
    modifies d.Repr()
    ensures fresh(d.Repr() - old(d.Repr()))
    ensures if go then Underway(d, m0, frame, q, more) else Matches(m0, frame, end, q, more)
    ensures go && Productive(k) ==> q + |more| > p + |output| || p == |frame|
    ensures go ==> !d.Outlying() || k.stable
    ensures !go && end == Misused ==> old(d.Outlying()) || !Polite(k, d.tob, d.mem.Length)
    ensures !go ==> end != Short
  {
    hide Decoder.Valid, Decoder.Outlying, Rejected, Refused, Apart, FeedAll, Untouched, WellFormed, Ended;
    q, more, go := p, output, false;
    if !d.MayWrite(k.at, |k.scratch|) {
      end := Misused;
      return;
    }
    d.CallerWrites(k.at, k.scratch);
    if !d.MayWrite(k.dst, k.cap) {
      end := Misused;
      return;
    }
    var src := Piece(frame, p, k.size);
    ghost var m1, sent1 := d.m, d.sent;
    var ok, done, consumed, produced := d.Decompress(src, k.dst, k.cap, k.stable);
    end := Invalid;
    if ok {
      q := p + consumed;
      var w := d.mem[k.dst..k.dst + produced];
      more := output + w;
      Advance(m0, frame, p, src, consumed);
      OutputGrows(m1, src[..consumed]);
      go, end := !done, Complete;
      Grown(m1.out, FeedAll(m1, src[..consumed]).out, sent1, w);
    } else {
      AdvanceRejected(m0, frame, p, src);
    }
  }

  lemma {:induction false} Grown(a: seq<byte>, b: seq<byte>, n: nat, w: seq<byte>)
    requires a <= b && n <= |a| && n + |w| <= |b| && w == b[n..n + |w|]
    ensures a[..n] + w == b[..n + |w|] && (n + |w| == |b| ==> a[..n] + w == b)
  {
    assert a[..n] == b[..n];
  }

  lemma {:induction false} Advance(m0: Machine, frame: seq<byte>, p: nat, src: seq<byte>, n: nat)
    requires WellFormed(m0) && p + |src| <= |frame| && src == frame[p..p + |src|] && n <= |src|
    ensures FeedAll(m0, frame[..p + n]) == FeedAll(FeedAll(m0, frame[..p]), src[..n])
  {
    assert src[..n] == frame[p..p + n];
    assert frame[..p] + frame[p..p + n] == frame[..p + n];
    FeedConcat(m0, frame[..p], src[..n]);
  }

  lemma {:induction false} AdvanceRejected(m0: Machine, frame: seq<byte>, p: nat, src: seq<byte>)
    requires WellFormed(m0) && p + |src| <= |frame| && src == frame[p..p + |src|]
             && Rejected(FeedAll(FeedAll(m0, frame[..p]), src))
    requires !Ended(m0)
    ensures Refused(m0, frame)
  {
    assert src[..|src|] == src;
    Advance(m0, frame, p, src, |src|);
    FeedAllSplit(m0, frame, p + |src|);
    RejectedStays(FeedAll(m0, frame[..p + |src|]), frame[p + |src|..]);
    RejectedIsRefused(m0, frame);
  }

  /** The first `n` bytes are a frame. */
  ghost predicate EndsAt(m0: Machine, input: seq<byte>, n: nat)
    requires WellFormed(m0)
  {
    n <= |input| && FeedAll(m0, input[..n]).phase == Done
  }

  ghost predicate HasEnd(m0: Machine, input: seq<byte>)
    requires WellFormed(m0)
  {
    exists n :: 0 <= n <= |input| && EndsAt(m0, input, n)
  }

  /**
   Decode a frame through a series of calls. Only a caller that overwrites its own stable output can go wrong. Calls
   that offer input and room cannot fail to get to the end of a frame.
   */
  method DecodeInPieces(d: Decoder, frame: seq<byte>, calls: seq<Call>) returns (end: End, p: nat, output: seq<byte>)
    requires d.Valid() && d.m == Initial(d.m.sum) && d.sent == 0 && !d.Outlying()
    modifies d.Repr()
    ensures Matches(old(d.m), frame, end, p, output)
    ensures AllPolite(calls, d.tob, d.mem.Length) ==> end != Misused
    ensures end == Short && HasEnd(old(d.m), frame) && AllProductive(calls) ==> |calls| <= p + |output|
  {
    hide Underway, Matches, Polite, Productive, AllPolite, AllProductive, FeedAll, WellFormed, Ended, HasEnd,
         Decoder.Valid, Decoder.Outlying;
    Starts(d, frame);
    ghost var m0 := d.m;
    p, output := 0, [];
    var i := 0;
    while i < |calls|
      invariant i <= |calls| && Underway(d, m0, frame, p, output) && fresh(d.Repr() - old(d.Repr()))
      invariant AllPolite(calls, d.tob, d.mem.Length) ==> !d.Outlying()
      invariant HasEnd(m0, frame) && AllProductive(calls) ==> i <= p + |output|
    {
      var go;
      StillShort(d, m0, frame, p, output);
      AllAt(calls, d.tob, d.mem.Length, i);
      go, end, p, output := OneCall(d, frame, p, output, calls[i], m0);
      if !go {
        return;
      }
      i := i + 1;
    }
    end := Short;
    StillShort(d, m0, frame, p, output);
  }

  lemma {:induction false} Starts(d: Decoder, frame: seq<byte>)
    requires d.Valid() && d.m == Initial(d.m.sum) && d.sent == 0
    ensures WellFormed(d.m) && !Ended(d.m) && Underway(d, d.m, frame, 0, [])
  {
    assert frame[..0] == [];
  }

  lemma AllAt(calls: seq<Call>, tob: nat, limit: nat, i: nat)
    requires i < |calls|
    ensures AllPolite(calls, tob, limit) ==> Polite(calls[i], tob, limit)
    ensures AllProductive(calls) ==> Productive(calls[i])
  {
  }

  /** A run that is under way has not reached the end of the frame. */
  lemma {:induction false} StillShort(d: Decoder, m0: Machine, frame: seq<byte>, p: nat, output: seq<byte>)
    requires WellFormed(m0) && Underway(d, m0, frame, p, output)
    ensures Matches(m0, frame, Short, p, output)
    ensures p == |frame| ==> !HasEnd(m0, frame)
  {
    hide Decoder.Valid;
    forall n | 0 <= n <= |frame| && EndsAt(m0, frame, n)
      ensures p < n
    {
      NotBehindEnd(m0, frame, n, p);
    }
  }

  lemma {:induction false} NotBehindEnd(m0: Machine, frame: seq<byte>, n: nat, p: nat)
    requires WellFormed(m0) && EndsAt(m0, frame, n) && p <= |frame| && !Ended(FeedAll(m0, frame[..p]))
    ensures p < n
  {
    if n < p {
      NothingAfterDone(m0, frame, n, p);
    }
  }

  /**
   A frame with anything behind it, such as more frames: enough calls complete it, exactly at its end and with its
   output, however the input and the room are cut up. `frame` may be all that the calls were given or only the start of
   it.
   */
  lemma {:induction false} FrameCompletes(m0: Machine, frame: seq<byte>, rest: seq<byte>, calls: nat, end: End, p: nat,
                                          output: seq<byte>)
    requires WellFormed(m0) && FeedAll(m0, frame).phase == Done && FeedAll(m0, frame).regular
    requires Matches(m0, frame + rest, end, p, output) && end != Misused
    requires end == Short && HasEnd(m0, frame + rest) ==> calls <= p + |output|
    requires calls >= |frame| + |FeedAll(m0, frame).out|
    ensures end == Complete && p == |frame| && output == FeedAll(m0, frame).out
  {
    var input, n := frame + rest, |frame|;
    assert input[..n] == frame;
    assert EndsAt(m0, input, n);
    NotRefused(m0, input, n);
    if end == Short {
      NotBehindEnd(m0, input, n, p);
      assert input[..n][..p] == input[..p];
      FeedAllSplit(m0, frame, p);
      OutputGrows(FeedAll(m0, input[..p]), frame[p..]);
    } else {
      OneEnd(m0, input, p, n);
    }
  }

  /** The checksum of the LZ4 frame format. */
  ghost const SUM: seq<byte> -> nat := d => Hash(Xxh32.RULE, Xxh32.Start(0), d) as nat

  /** A fresh context with XXH32 as its checksum. */
  method DecodeFrame(mem: array<byte>, tob: nat, frame: seq<byte>, calls: seq<Call>)
    returns (end: End, p: nat, output: seq<byte>)
    requires tob + RESERVED <= mem.Length
    modifies mem
    ensures Matches(Initial(SUM), frame, end, p, output)
    ensures AllPolite(calls, tob, mem.Length) ==> end != Misused
    ensures end == Short && HasEnd(Initial(SUM), frame) && AllProductive(calls) ==> |calls| <= p + |output|
  {
    Xxh32.RuleIsValid();
    var d := new Decoder(mem, tob, Xxh32.RULE, Xxh32.Start(0), SUM);
    end, p, output := DecodeInPieces(d, frame, calls);
  }

  /** A frame has one end: however it is reached, it is the same place with the same output. */
  lemma {:induction false} OneEnd(m0: Machine, frame: seq<byte>, p: nat, q: nat)
    requires WellFormed(m0) && p <= |frame| && q <= |frame|
    requires FeedAll(m0, frame[..p]).phase == Done && FeedAll(m0, frame[..q]).phase == Done
    ensures p == q
  {
    if p < q {
      NothingAfterDone(m0, frame, p, q);
    } else if q < p {
      NothingAfterDone(m0, frame, q, p);
    }
  }

  lemma {:induction false} NothingAfterDone(m0: Machine, frame: seq<byte>, p: nat, q: nat)
    requires WellFormed(m0) && p < q <= |frame| && FeedAll(m0, frame[..p]).phase == Done
    ensures FeedAll(m0, frame[..q]).phase == Beyond
  {
    FeedAllSplit(m0, frame[..q], p);
    assert frame[..q][..p] == frame[..p];
    BeyondStays(FeedAll(m0, frame[..p]), frame[..q][p..]);
  }

  /** A method that puts it together, from a fresh context, for a frame followed by anything. */
  method DecodeWithRest(mem: array<byte>, tob: nat, ghost frame: seq<byte>, ghost rest: seq<byte>, input: seq<byte>,
                        calls: seq<Call>)
    returns (end: End, p: nat, output: seq<byte>)
    requires tob + RESERVED <= mem.Length && input == frame + rest
    requires FeedAll(Initial(SUM), frame).phase == Done && FeedAll(Initial(SUM), frame).regular
    requires AllPolite(calls, tob, mem.Length) && AllProductive(calls)
             && |calls| >= |frame| + |FeedAll(Initial(SUM), frame).out|
    modifies mem
    ensures end == Complete && p == |frame| && output == FeedAll(Initial(SUM), frame).out
  {
    end, p, output := DecodeFrame(mem, tob, input, calls);
    FrameCompletes(Initial(SUM), frame, rest, |calls|, end, p, output);
  }

  /**
   From the writer to the caller: any frame that can be written, fed to the decoder in pieces of any size with any room,
   and followed by anything, comes back as the contents of its blocks.
   */
  method DecodeWritten(mem: array<byte>, tob: nat, ghost ch: FrameWriter.Choice, ghost bs: seq<FrameWriter.Block>,
                       ghost rest: seq<byte>, input: seq<byte>, calls: seq<Call>)
    returns (end: End, p: nat, output: seq<byte>)
    requires tob + RESERVED <= mem.Length && FrameWriter.Expressible(ch) && FrameWriter.Contents(ch, bs).Some?
    requires FrameWriter.SizeRight(ch, |FrameWriter.Contents(ch, bs).value|)
    requires input == FrameWriter.WriteFrame(SUM, ch, bs, FrameWriter.Contents(ch, bs).value) + rest
    requires AllPolite(calls, tob, mem.Length) && AllProductive(calls)
    requires |calls| >= |input| - |rest| + |FrameWriter.Contents(ch, bs).value|
    modifies mem
    ensures end == Complete && p == |input| - |rest| && output == FrameWriter.Contents(ch, bs).value
  {
    hide FeedAll, FrameWriter.WriteFrame, FrameWriter.Contents, AllPolite, AllProductive;
    ghost var content := FrameWriter.Contents(ch, bs).value;
    SumIsChecksum();
    FrameWriter.FrameRoundTrip(SUM, ch, bs);
    end, p, output := DecodeWithRest(mem, tob, FrameWriter.WriteFrame(SUM, ch, bs, content), rest, input, calls);
  }

  lemma SumIsChecksum()
    ensures FrameWriter.Checksum(SUM)
  {
  }

  /** Nothing is ever taken back: output only grows while a frame is fed. */
  lemma {:induction false} OutputGrows(m: Machine, s: seq<byte>)
    requires WellFormed(m)
    ensures m.out <= FeedAll(m, s).out
    decreases |s|
  {
    if s != [] {
      OutputGrows(Feed(m, s[0]), s[1..]);
    }
  }

  /** Any two runs over a frame: if both complete it, they agree; what an incomplete one has output is a prefix. */
  lemma {:induction false} RunsAgree(m0: Machine, frame: seq<byte>, end1: End, p1: nat, out1: seq<byte>, end2: End,
                                     p2: nat, out2: seq<byte>)
    requires WellFormed(m0)
    requires Matches(m0, frame, end1, p1, out1) && Matches(m0, frame, end2, p2, out2) && end1 == Complete
    ensures end2 == Complete ==> p2 == p1 && out2 == out1
    ensures end2 in {Short, Misused} ==> p2 <= p1 && out2 <= out1
  {
    if end2 == Complete {
      OneEnd(m0, frame, p1, p2);
    } else if end2 != Invalid {
      if p1 < p2 {
        NothingAfterDone(m0, frame, p1, p2);
      }
      assert frame[..p1][..p2] == frame[..p2];
      FeedAllSplit(m0, frame[..p1], p2);
      OutputGrows(FeedAll(m0, frame[..p2]), frame[..p1][p2..]);
    }
  }

  /**
   Unless the frame consists of linked 64 KB blocks, the way it is cut up has no influence on the verdict either: no run
   refuses what another one completes.
   */
  lemma {:induction false} SameVerdict(m0: Machine, frame: seq<byte>, h: nat, end1: End, p1: nat, out1: seq<byte>,
                                       end2: End, p2: nat, out2: seq<byte>)
    requires WellFormed(m0) && h <= |frame| && !Ended(FeedAll(m0, frame[..h])) && Plain(FeedAll(m0, frame[..h]))
    requires Matches(m0, frame, end1, p1, out1) && Matches(m0, frame, end2, p2, out2)
    ensures end1 == Complete ==> end2 != Invalid
  {
    if end1 == Complete {
      if p1 < h {
        NothingAfterDone(m0, frame, p1, h);
        assert false;
      }
      assert frame[..p1] == frame[..h] + frame[h..p1];
      PlainFromHeader(m0, frame[..h], frame[h..p1]);
      NotRefused(m0, frame, p1);
    }
  }
}
