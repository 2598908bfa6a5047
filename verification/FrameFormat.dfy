/**
 The LZ4 frame format (LZ4 Frame specification v1.5.0) as a machine that is fed one byte at a time. What it has
 decoded after a string of bytes depends on that string alone, so it is the reference against which every
 way of feeding a buffered decoder can be compared.
 */
module FrameFormat {
  import opened Bytes
  import opened BlockFormat
  import opened BlockAcceptance

  const MIN_HEADER := 7
  const MAX_HEADER := 19
  const MAGIC := 0x184D2204
  const SKIPPABLE := 0x184D2A50

  // ---------------------------------------------------------------- fields

  function ReadLE32(w: seq<byte>): nat
    requires |w| >= 4
  {
    (w[0] as int) + (w[1] as int) * 256 + (w[2] as int) * 0x1_0000 + (w[3] as int) * 0x100_0000
  }

  function ReadLE64(w: seq<byte>): nat
    requires |w| >= 8
  {
    ReadLE32(w) + ReadLE32(w[4..]) * 0x1_0000_0000
  }

  /** What the frame header says about the frame. */
  datatype Info = Info(linked: bool, blockCrc: bool, contentCrc: bool, contentSize: nat, maxBlock: nat)

  function Bit(x: byte, k: nat): nat
    requires k < 8
  {
    (x as int) / [1, 2, 4, 8, 16, 32, 64, 128][k] % 2
  }

  predicate IsSkippable(h: seq<byte>)
    requires |h| >= 4
  {
    ReadLE32(h) / 16 == SKIPPABLE / 16
  }

  /** Magic number, reserved bit and version are right. */
  predicate FlagsOk(h: seq<byte>)
    requires |h| >= MIN_HEADER
  {
    ReadLE32(h) == MAGIC && Bit(h[4], 1) == 0 && (h[4] as int) / 64 == 1
  }

  function HeaderSize(h: seq<byte>): (n: nat)
    requires |h| >= MIN_HEADER
    ensures MIN_HEADER <= n <= MAX_HEADER
  {
    MIN_HEADER + Bit(h[4], 3) * 8 + Bit(h[4], 0) * 4
  }

  function BlockSize(id: nat): nat
    requires 4 <= id <= 7
  {
    [0x1_0000, 0x4_0000, 0x10_0000, 0x40_0000][id - 4]
  }

  /** The descriptor byte is valid, and so is the header checksum. */
  ghost predicate DescriptorOk(sum: seq<byte> -> nat, h: seq<byte>, n: nat)
    requires MIN_HEADER <= n <= |h|
  {
    && Bit(h[5], 7) == 0 && (h[5] as int) / 16 % 8 >= 4 && h[5] % 16 == 0
    && sum(h[4..n - 1]) / 256 % 256 == h[n - 1] as int
  }

  function HeaderInfo(h: seq<byte>): (i: Info)
    requires |h| >= MIN_HEADER && HeaderSize(h) <= |h| && (h[5] as int) / 16 % 8 >= 4
    ensures KB64 <= i.maxBlock <= 0x40_0000 && (i.maxBlock == KB64 || i.maxBlock >= 4 * KB64)
  {
    Info(Bit(h[4], 5) == 0, Bit(h[4], 4) == 1, Bit(h[4], 2) == 1,
         if Bit(h[4], 3) == 1 then ReadLE64(h[6..14]) else 0,
         BlockSize((h[5] as int) / 16 % 8))
  }

  // ---------------------------------------------------------------- the machine

  /** Which field is being collected. */
  datatype Kind = KHeader | KBlockHead(info: Info) | KRawCrc(info: Info,
                                                             data: seq<byte>) | KBlock(info: Info) | KSuffix(info: Info)

  /** `Beyond`: bytes have been fed behind the end of the frame, which say nothing about it. */
  datatype Phase =
    | Collect(kind: Kind, want: nat, got: seq<byte>)
    | Raw(info: Info, left: nat, data: seq<byte>)
    | Skip(left: nat)
    | Done
    | Beyond
    | Failed

  /**
   `out` is everything decoded so far; `regular` says that all blocks are such as a decoder accepts even if none of
   their history lies directly before its output; `sum` is the checksum function of the format (XXH32 with seed 0),
   about which the machine needs to know nothing.
   */
  datatype Machine = Machine(phase: Phase, out: seq<byte>, regular: bool, sum: seq<byte> -> nat)

  ghost function Initial(sum: seq<byte> -> nat): Machine {
    Machine(Collect(KHeader, MIN_HEADER, []), [], true, sum)
  }

  ghost function ToBlockHead(m: Machine, info: Info): Machine {
    m.(phase := Collect(KBlockHead(info), 4, []))
  }

  ghost function OnHeader(m: Machine, h: seq<byte>): Machine
    requires |h| >= MIN_HEADER
  {
    if IsSkippable(h) then
      if |h| < 8 then m.(phase := Collect(KHeader, 8, h))
      else if ReadLE32(h[4..]) == 0 then m.(phase := Done)
      else m.(phase := Skip(ReadLE32(h[4..])))
    else if !FlagsOk(h) then m.(phase := Failed)
    else if |h| < HeaderSize(h) then m.(phase := Collect(KHeader, HeaderSize(h), h))
    else if !DescriptorOk(m.sum, h, HeaderSize(h)) then m.(phase := Failed)
    else ToBlockHead(m, HeaderInfo(h))
  }

  /** The end mark: the announced size must have been reached. */
  ghost function OnEndMark(m: Machine, info: Info): Machine {
    if info.contentSize != 0 && |m.out| % TWO64 != info.contentSize then m.(phase := Failed)
    else if info.contentCrc then m.(phase := Collect(KSuffix(info), 4, []))
    else m.(phase := Done)
  }

  function CrcSize(info: Info): nat {
    if info.blockCrc then 4 else 0
  }

  ghost function OnBlockHead(m: Machine, info: Info, word: nat): Machine {
    var size := word % TWO31;
    if size == 0 then OnEndMark(m, info)
    else if size > info.maxBlock then m.(phase := Failed)
    else if word >= TWO31 then m.(phase := Raw(info, size, []))
    else m.(phase := Collect(KBlock(info), size + CrcSize(info), []))
  }

  /** Linked blocks see everything decoded before them; independent ones see nothing. */
  ghost function HistoryOf(m: Machine, info: Info): seq<byte> {
    if info.linked then m.out else []
  }

  ghost predicate Decodes(m: Machine, info: Info, body: seq<byte>) {
    var h := HistoryOf(m, info);
    Decode(body, 0, h).Some? && |Decode(body, 0, h).value| <= |h| + info.maxBlock
  }

  /** The block decodes within its size, and there is a place to put its history where the block decoder accepts it. */
  ghost predicate BlockOk(m: Machine, info: Info, body: seq<byte>) {
    Decodes(m, info, body) && AcceptedAt(body, info.maxBlock, true, |HistoryOf(m, info)|)
  }

  ghost function BlockOutput(m: Machine, info: Info, body: seq<byte>): seq<byte>
    requires BlockOk(m, info, body)
  {
    DecodeExtends(body, 0, HistoryOf(m, info));
    Decode(body, 0, HistoryOf(m, info)).value[|HistoryOf(m, info)|..]
  }

  ghost function OnBody(m: Machine, info: Info, body: seq<byte>): Machine {
    if !BlockOk(m, info, body) then m.(phase := Failed)
    else ToBlockHead(m, info).(out := m.out + BlockOutput(m, info, body),
                              regular := m.regular && AcceptedAt(body, info.maxBlock, false, |HistoryOf(m, info)|))
  }

  /** The checksum behind a compressed block, if there is one, is that of the block. */
  ghost predicate SumRight(m: Machine, info: Info, got: seq<byte>)
    requires |got| > CrcSize(info)
  {
    var n := |got| - CrcSize(info);
    info.blockCrc ==> ReadLE32(got[n..]) == m.sum(got[..n])
  }

  ghost function OnBlock(m: Machine, info: Info, got: seq<byte>): Machine
    requires |got| > CrcSize(info)
  {
    if !SumRight(m, info, got) then m.(phase := Failed)
    else OnBody(m, info, got[..|got| - CrcSize(info)])
  }

  ghost predicate KindOk(kind: Kind, want: nat) {
    match kind
    case KHeader => want >= MIN_HEADER
    case KBlock(info) => want > CrcSize(info)
    case _ => want == 4
  }

  /** A field is complete. */
  ghost function Complete(m: Machine, kind: Kind, got: seq<byte>): Machine
    requires KindOk(kind, |got|)
  {
    match kind
    case KHeader => OnHeader(m, got)
    case KBlockHead(info) => OnBlockHead(m, info, ReadLE32(got))
    case KRawCrc(info, data) => if ReadLE32(got) == m.sum(data) then ToBlockHead(m, info) else m.(phase := Failed)
    case KBlock(info) => OnBlock(m, info, got)
    case KSuffix(info) => m.(phase := if ReadLE32(got) == m.sum(m.out) then Done else Failed)
  }

  ghost function AfterRaw(m: Machine, info: Info, data: seq<byte>): Machine {
    if info.blockCrc then m.(phase := Collect(KRawCrc(info, data), 4, [])) else ToBlockHead(m, info)
  }

  /** Bytes of an uncompressed block: they are output as they come. */
  ghost function OnRaw(m: Machine, info: Info, left: nat, data: seq<byte>, bytes: seq<byte>): Machine
    requires |bytes| <= left
  {
    var m1 := m.(out := m.out + bytes);
    if |bytes| == left then AfterRaw(m1, info, data + bytes)
    else m1.(phase := Raw(info, left - |bytes|, data + bytes))
  }

  ghost function OnSkip(m: Machine, left: nat, n: nat): Machine
    requires n <= left
  {
    m.(phase := if n == left then Done else Skip(left - n))
  }

  ghost function OnCollect(m: Machine, kind: Kind, want: nat, got: seq<byte>): Machine
    requires |got| <= want && KindOk(kind, want)
  {
    if |got| < want then m.(phase := Collect(kind, want, got)) else Complete(m, kind, got)
  }

  ghost predicate WellFormed(m: Machine) {
    match m.phase
    case Collect(kind, want, got) => |got| < want && KindOk(kind, want)
    case Raw(_, left, _) => left > 0
    case Skip(left) => left > 0
    case _ => true
  }

  ghost function Feed(m: Machine, b: byte): (r: Machine)
    requires WellFormed(m)
    ensures WellFormed(r)
  {
    match m.phase
    case Collect(kind, want, got) => OnCollect(m, kind, want, got + [b])
    case Raw(info, left, data) => OnRaw(m, info, left, data, [b])
    case Skip(left) => OnSkip(m, left, 1)
    case Failed => m
    case _ => m.(phase := Beyond)
  }

  ghost function FeedAll(m: Machine, s: seq<byte>): (r: Machine)
    requires WellFormed(m)
    ensures WellFormed(r)
    decreases |s|
  {
    if s == [] then m else FeedAll(Feed(m, s[0]), s[1..])
  }

  // ---------------------------------------------------------------- many bytes at once

  lemma {:induction false} FeedConcat(m: Machine, s: seq<byte>, t: seq<byte>)
    requires WellFormed(m)
    ensures FeedAll(m, s + t) == FeedAll(FeedAll(m, s), t)
    decreases |s|
  {
    if s == [] {
      assert s + t == t;
    } else {
      assert (s + t)[0] == s[0] && (s + t)[1..] == s[1..] + t;
      FeedConcat(Feed(m, s[0]), s[1..], t);
    }
  }

  lemma {:induction false} FailedStays(m: Machine, s: seq<byte>)
    requires m.phase.Failed?
    ensures FeedAll(m, s).phase.Failed?
    decreases |s|
  {
    if s != [] {
      FailedStays(Feed(m, s[0]), s[1..]);
    }
  }

  lemma {:induction false} FeedCollect(m: Machine, kind: Kind, want: nat, got: seq<byte>, s: seq<byte>)
    requires m.phase == Collect(kind, want, got) && WellFormed(m) && |got| + |s| <= want
    ensures FeedAll(m, s) == OnCollect(m, kind, want, got + s)
    decreases |s|
  {
    if s == [] {
      assert got + s == got;
    } else {
      var g := got + [s[0]];
      assert got + s == g + s[1..];
      if |g| < want {
        FeedCollect(m.(phase := Collect(kind, want, g)), kind, want, g, s[1..]);
        if |got + s| == want {
          CompleteIgnoresPhase(m, Collect(kind, want, g), kind, got + s);
        }
      } else {
        assert s[1..] == [] && got + s == g;
      }
    }
  }

  /** What happens next does not depend on the phase that led there. */
  lemma CompleteIgnoresPhase(m: Machine, p: Phase, kind: Kind, got: seq<byte>)
    requires KindOk(kind, |got|)
    ensures Complete(m.(phase := p), kind, got) == Complete(m, kind, got)
  {
    hide ReadLE32, AcceptedAt, Decode, IsSkippable, FlagsOk, HeaderSize, DescriptorOk;
  }

  lemma {:induction false} FeedRaw(m: Machine, info: Info, left: nat, data: seq<byte>, s: seq<byte>)
    requires m.phase == Raw(info, left, data) && 0 < left && |s| <= left
    ensures FeedAll(m, s) == if s == [] then m else OnRaw(m, info, left, data, s)
    decreases |s|
  {
    if s != [] {
      var m1 := Feed(m, s[0]);
      if |s| == 1 {
        assert s == [s[0]];
      } else {
        FeedRaw(m1, info, left - 1, data + [s[0]], s[1..]);
        assert m.out + s == m1.out + s[1..] && data + s == data + [s[0]] + s[1..];
      }
    }
  }

  lemma {:induction false} FeedSkip(m: Machine, left: nat, s: seq<byte>)
    requires m.phase == Skip(left) && 0 < left && |s| <= left
    ensures FeedAll(m, s) == if s == [] then m else OnSkip(m, left, |s|)
    decreases |s|
  {
    if s != [] && |s| > 1 {
      FeedSkip(Feed(m, s[0]), left - 1, s[1..]);
    }
  }

  /** No more input is wanted. */
  ghost predicate Ended(m: Machine) {
    m.phase == Done || m.phase == Beyond || m.phase == Failed
  }

  /** A machine that has failed, or has seen a block that is refused in the least favourable place, stays that way. */
  ghost predicate Rejected(m: Machine) {
    m.phase.Failed? || !m.regular
  }

  lemma {:induction false} RejectedStays(m: Machine, s: seq<byte>)
    requires WellFormed(m) && Rejected(m)
    ensures Rejected(FeedAll(m, s))
    decreases |s|
  {
    if s != [] {
      RejectedStays(Feed(m, s[0]), s[1..]);
    }
  }

  /** Bytes behind the end of a frame change nothing but that. */
  lemma {:induction false} BeyondStays(m: Machine, s: seq<byte>)
    requires m.phase == Done || m.phase == Beyond
    ensures FeedAll(m, s) == if s == [] then m else m.(phase := Beyond)
    decreases |s|
  {
    if s != [] {
      BeyondStays(Feed(m, s[0]), s[1..]);
    }
  }

  /** Some start of `s` is rejected, and it comes before any end of the frame. */
  ghost predicate RefusedAt(m: Machine, s: seq<byte>, k: nat)
    requires WellFormed(m)
  {
    k <= |s| && Rejected(FeedAll(m, s[..k])) && forall j :: 0 <= j <= k ==> FeedAll(m, s[..j]).phase != Done
  }

  ghost predicate Refused(m: Machine, s: seq<byte>)
    requires WellFormed(m)
  {
    exists k :: 0 <= k <= |s| && RefusedAt(m, s, k)
  }

  /** Input that ends up rejected became so before any frame in it had ended. */
  lemma {:induction false} RejectedIsRefused(m: Machine, s: seq<byte>)
    requires WellFormed(m) && !(m.phase == Done || m.phase == Beyond) && Rejected(FeedAll(m, s))
    ensures Refused(m, s)
    decreases |s|
  {
    assert s[..0] == [];
    if Rejected(m) {
      assert RefusedAt(m, s, 0);
    } else {
      var m1, t := Feed(m, s[0]), s[1..];
      if m1.phase == Done {
        BeyondStays(m1, t);
      }
      RejectedIsRefused(m1, t);
      var k :| 0 <= k <= |t| && RefusedAt(m1, t, k);
      forall j | 0 <= j <= k + 1
        ensures FeedAll(m, s[..j]).phase != Done && (j > 0 ==> FeedAll(m, s[..j]) == FeedAll(m1, t[..j - 1]))
      {
        if j > 0 {
          assert s[..j][0] == s[0] && s[..j][1..] == t[..j - 1];
        }
      }
      assert RefusedAt(m, s, k + 1);
    }
  }

  /** A frame that ended well is not refused, whatever follows it. */
  lemma {:induction false} NotRefused(m: Machine, s: seq<byte>, n: nat)
    requires WellFormed(m) && n <= |s| && FeedAll(m, s[..n]).phase == Done && FeedAll(m, s[..n]).regular
    ensures !Refused(m, s)
  {
    if Refused(m, s) {
      var k :| 0 <= k <= |s| && RefusedAt(m, s, k);
      assert k < n;
      assert s[..n][..k] == s[..k] && s[..n] == s[..k] + s[..n][k..];
      FeedConcat(m, s[..k], s[..n][k..]);
      RejectedStays(FeedAll(m, s[..k]), s[..n][k..]);
    }
  }

  /** Blocks that keep the end-of-block restrictions leave a frame regular. */
  lemma {:induction false} WellEndedStaysRegular(m: Machine, info: Info, body: seq<byte>)
    requires m.regular && Decodes(m, info, body) && WellEnded(body, 0, false) && info.maxBlock > 0
    ensures BlockOk(m, info, body) && OnBody(m, info, body).regular
  {
    var n := |HistoryOf(m, info)|;
    DecodeLength(body, 0, HistoryOf(m, info));
    WellEndedAccepted(body, 0, false, HistoryOf(m, info), info.maxBlock, 0, n);
    NearIsBest(body, info.maxBlock, true, n);
  }

  /** The blocks have no history, or they are larger than history reaches back. */
  predicate Indifferent(info: Info) {
    !info.linked || info.maxBlock >= 2 * KB64
  }

  /** The header has been read and announces such blocks. */
  ghost predicate Plain(m: Machine) {
    && m.regular
    && match m.phase
       case Collect(kind, _, _) => !kind.KHeader? && Indifferent(kind.info)
       case Raw(info, _, _) => Indifferent(info)
       case _ => true
  }

  /** For such blocks it makes no difference where their history is put. */
  lemma {:induction false} PlainBlock(m: Machine, info: Info, got: seq<byte>)
    requires m.regular && Indifferent(info) && |got| > CrcSize(info)
    ensures Plain(OnBlock(m, info, got))
  {
    hide AcceptedAt;
    PlaceIndifferent(got[..|got| - CrcSize(info)], info.maxBlock, |HistoryOf(m, info)|);
  }

  lemma {:induction false} PlainStep(m: Machine, b: byte)
    requires WellFormed(m) && Plain(m)
    ensures Plain(Feed(m, b))
  {
    hide OnBlock;
    if m.phase.Collect? && m.phase.kind.KBlock? && |m.phase.got| + 1 == m.phase.want {
      PlainBlock(m, m.phase.kind.info, m.phase.got + [b]);
    }
  }

  /** Only frames of linked 64 KB blocks can be irregular: any other frame is regular whatever its blocks hold. */
  lemma {:induction false} PlainStays(m: Machine, s: seq<byte>)
    requires WellFormed(m) && Plain(m)
    ensures Plain(FeedAll(m, s))
    decreases |s|
  {
    if s != [] {
      PlainStep(m, s[0]);
      PlainStays(Feed(m, s[0]), s[1..]);
    }
  }

  lemma {:induction false} PlainFromHeader(m: Machine, h: seq<byte>, s: seq<byte>)
    requires WellFormed(m) && Plain(FeedAll(m, h))
    ensures FeedAll(m, h + s).regular
  {
    FeedConcat(m, h, s);
    PlainStays(FeedAll(m, h), s);
  }
}
