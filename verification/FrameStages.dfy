/**
 The stages of the frame decoder that only look at input: frame header, block header, checksums, skippable frames.
 Each stage takes what input there is, keeps incomplete fields in its own store, and moves on when a field is complete.
 */
module FrameStages {
  import opened Bytes
  import opened FrameFormat
  import opened XxStripes
  import Xxh32

  datatype Stage =
    | GetFrameHeader | StoreFrameHeader | Init | GetBlockHeader | StoreBlockHeader | CopyDirect | GetBlockChecksum
    | GetCBlock | StoreCBlock | FlushOut | GetSuffix | StoreSuffix | GetSFrameSize | StoreSFrameSize | SkipSkippable

  /**
   The scalar part of the decoding context. `stored` is what has been collected of the current field (the first
   tmpInSize bytes of tmpIn or header), `target` its size.
   */
  datatype Ctx = Ctx(stage: Stage, info: Info, remaining: nat, stored: seq<byte>, target: nat)

  /** After a stage: go on, wait for the caller, the frame is complete, or the input is invalid. */
  datatype Outcome = Go | Stop | Finished | Broken

  /** Stages that follow one another without consuming input have decreasing rank. */
  function Rank(s: Stage): nat {
    match s
    case GetFrameHeader => 5
    case StoreFrameHeader => 4
    case Init => 3
    case FlushOut => 3
    case GetBlockHeader => 2
    case StoreBlockHeader => 1
    case GetCBlock => 2
    case StoreCBlock => 1
    case GetSuffix => 2
    case GetSFrameSize => 2
    case StoreSFrameSize => 1
    case _ => 0
  }

  /** What is left of the announced content size, computed in 64 bits. */
  function Remaining(info: Info, produced: nat): nat {
    if info.contentSize == 0 then 0 else (info.contentSize - produced) % TWO64
  }

  /** Not the phase of any machine. */
  const NOWHERE := Skip(0)

  /** The phase in which the machine must be for a context; what the context does not know is taken from `m`. */
  ghost function PhaseOf(c: Ctx, m: Machine): Phase {
    match c.stage
    case GetFrameHeader => Collect(KHeader, MIN_HEADER, [])
    case StoreFrameHeader => Collect(KHeader, c.target, c.stored)
    case GetSFrameSize => if m.phase.Collect? then Collect(KHeader, MIN_HEADER, m.phase.got) else NOWHERE
    case StoreSFrameSize =>
      if m.phase.Collect? then Collect(KHeader, if |m.phase.got| < MIN_HEADER then MIN_HEADER else 8, m.phase.got)
      else NOWHERE
    case SkipSkippable => if c.target == 0 then Done else Skip(c.target)
    case Init => Collect(KBlockHead(c.info), 4, [])
    case GetBlockHeader => Collect(KBlockHead(c.info), 4, [])
    case FlushOut => Collect(KBlockHead(c.info), 4, [])
    case StoreBlockHeader => Collect(KBlockHead(c.info), 4, c.stored)
    case CopyDirect => if m.phase.Raw? then Raw(c.info, c.target, m.phase.data) else NOWHERE
    case GetBlockChecksum =>
      if m.phase.Collect? && m.phase.kind.KRawCrc? then Collect(KRawCrc(c.info, m.phase.kind.data), 4, c.stored)
      else NOWHERE
    case GetCBlock => Collect(KBlock(c.info), c.target, [])
    case StoreCBlock => Collect(KBlock(c.info), c.target, c.stored)
    case GetSuffix => OnEndMark(m, c.info).phase
    case StoreSuffix => Collect(KSuffix(c.info), 4, c.stored)
  }

  predicate InHeader(s: Stage) {
    s in {GetFrameHeader, StoreFrameHeader, GetSFrameSize, StoreSFrameSize, SkipSkippable}
  }

  /** The other fields of the context. */
  ghost predicate SideOk(c: Ctx, m: Machine) {
    if InHeader(c.stage) then
      && m.out == [] && c.remaining == 0
      && (c.stage == StoreFrameHeader ==> HeaderTargetOk(c.stored, c.target))
      && (c.stage == GetSFrameSize ==> m.phase.Collect? && |m.phase.got| == 4 && IsSkippable(m.phase.got))
      && (c.stage == StoreSFrameSize ==> SkipSizeOk(c, m))
    else
      && c.remaining == Remaining(c.info, |m.out|) && c.info.contentSize < TWO64 && KB64 <= c.info.maxBlock <= 0x40_0000
      && (c.stage in {GetCBlock, StoreCBlock} ==> c.target <= c.info.maxBlock + CrcSize(c.info))
      && (c.stage == GetBlockChecksum ==> c.info.blockCrc)
      && (c.stage == StoreSuffix ==> c.info.contentCrc && c.remaining == 0)
  }

  /** Seven bytes are wanted until they tell how long the header is. */
  ghost predicate HeaderTargetOk(stored: seq<byte>, target: nat) {
    target == MIN_HEADER
    || (target > MIN_HEADER && |stored| >= MIN_HEADER && !IsSkippable(stored) && FlagsOk(stored)
        && target == HeaderSize(stored))
  }

  ghost predicate SkipSizeOk(c: Ctx, m: Machine) {
    && m.phase.Collect? && m.phase.kind == KHeader && c.target == 8
    && var g := m.phase.got;
       && 4 <= |g| == |c.stored| < 8 && IsSkippable(g) && g[4..] == c.stored[4..]
       && m.phase.want == if |g| < MIN_HEADER then MIN_HEADER else 8
  }

  /** The context stands where the machine stands. */
  ghost predicate StageOk(c: Ctx, m: Machine) {
    m.phase == PhaseOf(c, m) && SideOk(c, m)
  }

  /** What every stage promises about the machine. */
  ghost predicate Follows(src: seq<byte>, p: nat, m: Machine, r: Outcome, q: nat, c: Ctx)
    requires p <= |src| && WellFormed(m)
  {
    if r == Broken then FeedAll(m, src[p..]).phase.Failed?
    else
      && p <= q <= |src|
      && var m1 := FeedAll(m, src[p..q]);
         if r == Finished then m1.phase == Done else StageOk(c, m1) && (r == Stop ==> !Ended(m1))
  }

  // ---------------------------------------------------------------- collecting a field

  /** Feeding part of the input, and then the rest. */
  lemma {:induction false} FeedSplit(m: Machine, src: seq<byte>, p: nat, q: nat, r: nat)
    requires WellFormed(m) && p <= q <= r <= |src|
    ensures FeedAll(m, src[p..r]) == FeedAll(FeedAll(m, src[p..q]), src[q..r])
  {
    assert src[p..r] == src[p..q] + src[q..r];
    FeedConcat(m, src[p..q], src[q..r]);
  }

  lemma {:induction false} FailsEarly(m: Machine, src: seq<byte>, p: nat, q: nat)
    requires WellFormed(m) && p <= q <= |src| && FeedAll(m, src[p..q]).phase.Failed?
    ensures FeedAll(m, src[p..]).phase.Failed?
  {
    FeedSplit(m, src, p, q, |src|);
    assert src[p..] == src[p..|src|] && src[q..] == src[q..|src|];
    FailedStays(FeedAll(m, src[p..q]), src[q..]);
  }

  /** Copy as much of a field as there is: min(target - tmpInSize, available) bytes. */
  method Gather(stored: seq<byte>, target: nat, src: seq<byte>, p: nat) returns (all: seq<byte>, q: nat)
    requires |stored| <= target && p <= |src|
    ensures p <= q <= |src| && all == stored + src[p..q] && |all| <= target
    ensures |all| < target ==> q == |src|
  {
    q := p + Min(target - |stored|, |src| - p);
    all := stored + src[p..q];
  }

  lemma {:induction false} GatherFeeds(m: Machine, src: seq<byte>, p: nat, q: nat)
    requires p <= q <= |src| && WellFormed(m) && m.phase.Collect? && |m.phase.got| + (q - p) <= m.phase.want
    ensures FeedAll(m, src[p..q]) == OnCollect(m, m.phase.kind, m.phase.want, m.phase.got + src[p..q])
  {
    FeedCollect(m, m.phase.kind, m.phase.want, m.phase.got, src[p..q]);
  }

  // ---------------------------------------------------------------- block header

  /** The four bytes of a block header have been read. */
  method BlockHeaderRead(c: Ctx, word: nat, dstFull: bool, ghost m: Machine) returns (r: Outcome, c1: Ctx)
    requires c.remaining == Remaining(c.info, |m.out|) && c.info.contentSize < TWO64
             && KB64 <= c.info.maxBlock <= 0x40_0000
    ensures r == Broken ==> OnBlockHead(m, c.info, word).phase.Failed?
    ensures r != Broken ==> StageOk(c1, OnBlockHead(m, c.info, word)) && r != Finished
    ensures c1.info == c.info && c1.stage in {GetSuffix, CopyDirect, GetCBlock, c.stage}
    ensures r == Go ==> c1.stage in {GetSuffix, CopyDirect, GetCBlock}
    ensures r == Stop ==> c1.stage == GetCBlock && dstFull && !Ended(OnBlockHead(m, c.info, word))
    ensures r != Broken ==> OnBlockHead(m, c.info, word).out == m.out
    ensures r != Broken && c1.stage == CopyDirect ==>
              OnBlockHead(m, c.info, word).phase.Raw? && OnBlockHead(m, c.info, word).phase.data == []
  {
    var size := word % TWO31;
    if size == 0 {
      return Go, c.(stage := GetSuffix);
    }
    if size > c.info.maxBlock {
      return Broken, c;
    }
    if word >= TWO31 {
      return Go, c.(stage := CopyDirect, target := size);
    }
    c1 := c.(stage := GetCBlock, target := size + CrcSize(c.info));
    r := if dstFull then Stop else Go;
  }

  /** dstage_getBlockHeader and dstage_storeBlockHeader. */
  method BlockHeaderStage(c: Ctx, src: seq<byte>, p: nat, dstFull: bool, ghost m: Machine)
    returns (r: Outcome, c1: Ctx, q: nat)
    requires c.stage in {GetBlockHeader, StoreBlockHeader} && StageOk(c, m) && WellFormed(m) && p <= |src|
    ensures Follows(src, p, m, r, q, c1) && r != Finished
    ensures r == Stop ==> q == |src| || dstFull
    ensures r == Go ==> q > p
    ensures r != Broken ==> c1.info == c.info && c1.stage in {StoreBlockHeader, GetSuffix, CopyDirect, GetCBlock}
    ensures r != Broken ==> FeedAll(m, src[p..q]).out == m.out
    ensures r != Broken && c1.stage == CopyDirect ==>
              FeedAll(m, src[p..q]).phase.Raw? && FeedAll(m, src[p..q]).phase.data == []
  {
    hide ReadLE32, HeaderTargetOk, SkipSizeOk, OnBlockHead, FeedAll;
    var stored := if c.stage == GetBlockHeader then [] else c.stored;
    var all;
    all, q := Gather(stored, 4, src, p);
    GatherFeeds(m, src, p, q);
    if |all| < 4 {
      return Stop, c.(stage := StoreBlockHeader, stored := all), q;
    }
    r, c1 := BlockHeaderRead(c, ReadLE32(all), dstFull, m);
    if r == Broken {
      FailsEarly(m, src, p, q);
    }
  }

  // ---------------------------------------------------------------- checksums

  /** dstage_getBlockChecksum: the checksum of an uncompressed block. */
  method BlockChecksumStage(c: Ctx, src: seq<byte>, p: nat, digest: nat, ghost m: Machine)
    returns (r: Outcome, c1: Ctx, q: nat)
    requires c.stage == GetBlockChecksum && StageOk(c, m) && WellFormed(m) && p <= |src|
    requires digest == m.sum(m.phase.kind.data)
    ensures Follows(src, p, m, r, q, c1) && r != Finished
    ensures r == Stop ==> q == |src|
    ensures r == Go ==> q > p
    ensures r != Broken ==> c1.info == c.info && FeedAll(m, src[p..q]).out == m.out
    ensures r == Go ==> c1.stage == GetBlockHeader
    ensures r == Stop ==> c1.stage == GetBlockChecksum && FeedAll(m, src[p..q]).phase.Collect?
    ensures r == Stop ==> FeedAll(m, src[p..q]).phase.kind == m.phase.kind
  {
    var all;
    all, q := Gather(c.stored, 4, src, p);
    GatherFeeds(m, src, p, q);
    if |all| < 4 {
      return Stop, c.(stored := all), q;
    }
    if ReadLE32(all) != digest {
      FailsEarly(m, src, p, q);
      return Broken, c, q;
    }
    r, c1 := Go, c.(stage := GetBlockHeader);
  }

  /** dstage_getSuffix and dstage_storeSuffix: the end of the frame. */
  method SuffixStage(c: Ctx, src: seq<byte>, p: nat, digest: nat, ghost m: Machine)
    returns (r: Outcome, c1: Ctx, q: nat)
    requires c.stage in {GetSuffix, StoreSuffix} && StageOk(c, m) && WellFormed(m) && p <= |src|
    requires c.info.contentCrc ==> digest == m.sum(m.out)
    ensures Follows(src, p, m, r, q, c1) && r != Go
    ensures r == Stop ==> q == |src|
    ensures r == Stop ==> c1.stage == StoreSuffix && c1.info == c.info
    ensures r == Finished ==> c1.remaining == 0
    ensures r != Broken ==> FeedAll(m, src[p..q]).out == m.out && c1.stage in {GetSuffix, StoreSuffix}
  {
    c1, q := c, p;
    assert src[p..p] == [];
    if c.stage == GetSuffix {
      RemainingIsZero(c.info, |m.out|);
      if c.remaining != 0 {
        FailsEarly(m, src, p, p);
        return Broken, c, p;
      }
      if !c.info.contentCrc {
        return Finished, c, p;
      }
    }
    var all;
    r, all, q := ContentChecksum(if c.stage == GetSuffix then [] else c.stored, src, p, digest, c.info, m);
    c1 := c.(stage := StoreSuffix, stored := all);
    if r == Broken {
      FailsEarly(m, src, p, q);
    }
  }

  lemma {:induction false} SuffixFeeds(m: Machine, info: Info, stored: seq<byte>, s: seq<byte>)
    requires m.phase == Collect(KSuffix(info), 4, stored) && |stored| < 4 && |stored| + |s| <= 4
    ensures var all := stored + s;
            FeedAll(m, s) == m.(phase := if |all| < 4 then Collect(KSuffix(info), 4, all)
                                         else if ReadLE32(all) == m.sum(m.out) then Done else Failed)
  {
    FeedCollect(m, KSuffix(info), 4, stored, s);
  }

  method ContentChecksum(stored: seq<byte>, src: seq<byte>, p: nat, digest: nat, ghost info: Info, ghost m: Machine)
    returns (r: Outcome, all: seq<byte>, q: nat)
    requires m.phase == Collect(KSuffix(info), 4, stored) && WellFormed(m) && p <= |src|
    requires digest == m.sum(m.out)
    ensures p <= q <= |src| && r != Go
    ensures r == Broken ==> FeedAll(m, src[p..q]).phase.Failed?
    ensures r == Stop ==> q == |src|
    ensures r == Stop ==> FeedAll(m, src[p..q]) == m.(phase := Collect(KSuffix(info), 4, all))
    ensures r == Finished ==> FeedAll(m, src[p..q]) == m.(phase := Done)
  {
    all, q := Gather(stored, 4, src, p);
    SuffixFeeds(m, info, stored, src[p..q]);
    r := if |all| < 4 then Stop else if ReadLE32(all) == digest then Finished else Broken;
  }

  lemma RemainingIsZero(info: Info, produced: nat)
    requires info.contentSize < TWO64
    ensures Remaining(info, produced) == 0 <==> info.contentSize == 0 || produced % TWO64 == info.contentSize
  {
  }

  // ---------------------------------------------------------------- skippable frames

  /** What the machine makes of `all`, the header of a skippable frame as far as it is known. */
  ghost predicate SkipSizeRead(c: Ctx, m: Machine, all: seq<byte>, m1: Machine) {
    4 <= |all| <= 8
    && if |all| < 8 then SkipSizeOk(c.(stored := all), m1) && m1.out == m.out && m1.regular == m.regular
       else m1 == m.(phase := if ReadLE32(all[4..]) == 0 then Done else Skip(ReadLE32(all[4..])))
  }

  lemma {:induction false} BehindMagic(g: seq<byte>, s: seq<byte>)
    requires |g| >= 4
    ensures (g + s)[4..] == g[4..] + s
  {
  }

  /** Up to the point where the machine looks at the field. */
  lemma {:induction false} SkipSizePiece(c: Ctx, m: Machine, s: seq<byte>)
    requires SkipSizeOk(c, m) && WellFormed(m) && |m.phase.got| + |s| <= m.phase.want
    ensures SkipSizeRead(c, m, c.stored + s, FeedAll(m, s))
  {
    var g := m.phase.got;
    assert IsSkippable(g + s) by {
      assert ReadLE32(g + s) == ReadLE32(g);
    }
    hide IsSkippable, ReadLE32, FlagsOk, HeaderSize, HeaderInfo, DescriptorOk;
    FeedCollect(m, KHeader, m.phase.want, g, s);
    BehindMagic(g, s);
    BehindMagic(c.stored, s);
  }

  lemma {:induction false} SkipSizeFeeds(c: Ctx, m: Machine, s: seq<byte>)
    requires SkipSizeOk(c, m) && WellFormed(m) && |c.stored| + |s| <= 8
    ensures SkipSizeRead(c, m, c.stored + s, FeedAll(m, s))
  {
    var k := m.phase.want - |m.phase.got|;
    if |s| <= k {
      SkipSizePiece(c, m, s);
    } else {
      var c1, m1 := c.(stored := c.stored + s[..k]), FeedAll(m, s[..k]);
      assert SkipSizeOk(c1, m1) && m1.(phase := m.phase) == m by {
        SkipSizePiece(c, m, s[..k]);
        FeedCollect(m, KHeader, m.phase.want, m.phase.got, s[..k]);
      }
      SkipSizePiece(c1, m1, s[k..]);
      assert c1.stored + s[k..] == c.stored + s;
      FeedAllSplit(m, s, k);
    }
  }

  lemma {:induction false} FeedAllSplit(m: Machine, s: seq<byte>, k: nat)
    requires WellFormed(m) && k <= |s|
    ensures FeedAll(m, s) == FeedAll(FeedAll(m, s[..k]), s[k..])
  {
    assert s == s[..k] + s[k..];
    FeedConcat(m, s[..k], s[k..]);
  }

  /** dstage_getSFrameSize and dstage_storeSFrameSize: the size of a skippable frame. */
  method SkipSizeStage(c: Ctx, src: seq<byte>, p: nat, ghost m: Machine) returns (r: Outcome, c1: Ctx, q: nat)
    requires c.stage in {GetSFrameSize, StoreSFrameSize} && StageOk(c, m) && WellFormed(m) && p <= |src|
    ensures Follows(src, p, m, r, q, c1) && r in {Go, Stop}
    ensures r == Stop ==> q == |src|
    ensures r == Go ==> q > p
    ensures c1.stage in {StoreSFrameSize, SkipSkippable} && FeedAll(m, src[p..q]).out == m.out
  {
    hide ReadLE32, HeaderTargetOk, IsSkippable;
    var c0 := c;
    if c.stage == GetSFrameSize {
      // the magic number was left in the input: only the places behind it will be read
      c0 := c.(stage := StoreSFrameSize, stored := [0, 0, 0, 0], target := 8);
      assert m.phase.got[4..] == c0.stored[4..];
    }
    var all;
    all, q := Gather(c0.stored, 8, src, p);
    SkipSizeFeeds(c0, m, src[p..q]);
    if |all| < 8 {
      r, c1 := Stop, c0.(stored := all);
    } else {
      r, c1 := Go, c0.(stage := SkipSkippable, target := ReadLE32(all[4..]));
    }
  }

  /** dstage_skipSkippable. */
  method SkipStage(c: Ctx, src: seq<byte>, p: nat, ghost m: Machine) returns (r: Outcome, c1: Ctx, q: nat)
    requires c.stage == SkipSkippable && StageOk(c, m) && WellFormed(m) && p <= |src|
    ensures Follows(src, p, m, r, q, c1) && r in {Stop, Finished}
    ensures r == Stop ==> q == |src|
    ensures c1.stage == SkipSkippable && c1.remaining == 0 && FeedAll(m, src[p..q]).out == m.out
  {
    var n := Min(c.target, |src| - p);
    q := p + n;
    if c.target > 0 {
      FeedSkip(m, c.target, src[p..q]);
    }
    c1 := c.(target := c.target - n);
    r := if c1.target == 0 then Finished else Stop;
  }

  /** Whichever of them it is. */
  method SkippableStage(c: Ctx, src: seq<byte>, p: nat, ghost m: Machine) returns (r: Outcome, c1: Ctx, q: nat)
    requires c.stage in {GetSFrameSize, StoreSFrameSize, SkipSkippable} && StageOk(c, m) && WellFormed(m) && p <= |src|
    ensures Follows(src, p, m, r, q, c1) && r != Broken
    ensures r == Stop ==> q == |src|
    ensures r == Go ==> q > p
    ensures r == Finished ==> c1.remaining == 0
    ensures c1.stage in {StoreSFrameSize, SkipSkippable} && FeedAll(m, src[p..q]).out == m.out
  {
    if c.stage == SkipSkippable {
      r, c1, q := SkipStage(c, src, p, m);
    } else {
      r, c1, q := SkipSizeStage(c, src, p, m);
    }
  }

  // ---------------------------------------------------------------- frame header

  /** What LZ4F_decodeHeader finds in the bytes it is given. */
  datatype Verdict = Bad | SkipFrame | Incomplete(size: nat) | Ready(info: Info, size: nat)

  ghost function VerdictOn(sum: seq<byte> -> nat, h: seq<byte>): Verdict
    requires |h| >= MIN_HEADER
  {
    if IsSkippable(h) then SkipFrame
    else if !FlagsOk(h) then Bad
    else if |h| < HeaderSize(h) then Incomplete(HeaderSize(h))
    else if !DescriptorOk(sum, h, HeaderSize(h)) then Bad
    else Ready(HeaderInfo(h), HeaderSize(h))
  }

  /** The checksum function of a frame is a hash of the given rule. */
  ghost predicate IsSum(sum: seq<byte> -> nat, rule: Rule<Xxh32.Lanes, bv32>, start: Xxh32.Lanes) {
    rule.Valid() && !rule.wide && forall d :: sum(d) == Hash(rule, start, d) as nat
  }

  method DecodeHeader(h: seq<byte>, rule: Rule<Xxh32.Lanes, bv32>, start: Xxh32.Lanes, ghost sum: seq<byte> -> nat)
    returns (v: Verdict)
    requires |h| >= MIN_HEADER && IsSum(sum, rule, start)
    ensures v == VerdictOn(sum, h)
  {
    hide HeaderInfo, FlagsOk, HeaderSize, ReadLE32, IsSkippable, Hash;
    if IsSkippable(h) {
      return SkipFrame;
    }
    if !FlagsOk(h) {
      return Bad;
    }
    var n := HeaderSize(h);
    if |h| < n {
      return Incomplete(n);
    }
    if Bit(h[5], 7) != 0 || (h[5] as int) / 16 % 8 < 4 || h[5] % 16 != 0 {
      return Bad;
    }
    var x := OneShot(rule, start, h[4..n - 1]);
    if (x as nat) / 256 % 256 != h[n - 1] as int {
      return Bad;
    }
    v := Ready(HeaderInfo(h), n);
  }

  /** The verdict looks at no more than the header. */
  lemma {:induction false} VerdictPrefix(sum: seq<byte> -> nat, h: seq<byte>, g: seq<byte>)
    requires |g| >= MIN_HEADER && g <= h
    ensures IsSkippable(g) == IsSkippable(h) && FlagsOk(g) == FlagsOk(h) && HeaderSize(g) == HeaderSize(h)
    ensures |g| >= HeaderSize(g) ==> VerdictOn(sum, g) == VerdictOn(sum, h)
  {
    var n := HeaderSize(g);
    if |g| >= n {
      assert g[4..n - 1] == h[4..n - 1];
      if n >= 15 {
        assert g[6..14] == h[6..14];
      }
    }
  }

  /** Seven bytes at the start of a frame. */
  lemma {:induction false} FirstSeven(m: Machine, h: seq<byte>)
    requires m.phase == Collect(KHeader, MIN_HEADER, []) && |h| >= MIN_HEADER
    ensures FeedAll(m, h[..MIN_HEADER]) == OnHeader(m, h[..MIN_HEADER])
  {
    FeedCollect(m, KHeader, MIN_HEADER, [], h[..MIN_HEADER]);
    assert [] + h[..MIN_HEADER] == h[..MIN_HEADER];
  }

  /** A whole header at once. */
  lemma {:induction false} WholeHeader(m: Machine, h: seq<byte>)
    requires m.phase == Collect(KHeader, MIN_HEADER, []) && |h| >= MAX_HEADER && !IsSkippable(h) && FlagsOk(h)
    ensures FeedAll(m, h[..HeaderSize(h)]) == OnHeader(m, h[..HeaderSize(h)])
  {
    var n, g := HeaderSize(h), h[..MIN_HEADER];
    FirstSeven(m, h);
    VerdictPrefix(m.sum, h, g);
    if n > MIN_HEADER {
      var m1 := m.(phase := Collect(KHeader, n, g));
      assert OnHeader(m, g) == m1;
      assert h[..n][..MIN_HEADER] == g;
      FeedAllSplit(m, h[..n], MIN_HEADER);
      FeedCollect(m1, KHeader, n, g, h[..n][MIN_HEADER..]);
      assert g + h[..n][MIN_HEADER..] == h[..n];
      CompleteIgnoresPhase(m, m1.phase, KHeader, h[..n]);
    }
  }

  /** The context once the header has been decoded. */
  function AfterHeader(c: Ctx, info: Info): Ctx {
    c.(stage := Init, info := info, remaining := info.contentSize)
  }

  lemma AfterHeaderOk(c: Ctx, m: Machine, h: seq<byte>)
    requires |h| >= MIN_HEADER && VerdictOn(m.sum, h).Ready? && m.out == []
    ensures var info := VerdictOn(m.sum, h).info; StageOk(AfterHeader(c, info), ToBlockHead(m, info))
  {
  }

  /** A complete header at the start of `h`. */
  lemma {:induction false} ReadyInPlace(c: Ctx, m: Machine, h: seq<byte>, info: Info, n: nat)
    requires m.phase == Collect(KHeader, MIN_HEADER, []) && |h| >= MAX_HEADER && VerdictOn(m.sum, h) == Ready(info, n)
             && m.out == []
    ensures MIN_HEADER <= n <= |h| && FeedAll(m, h[..n]) == ToBlockHead(m, info)
            && StageOk(AfterHeader(c, info), ToBlockHead(m, info))
  {
    WholeHeader(m, h);
    VerdictPrefix(m.sum, h, h[..n]);
    AfterHeaderOk(c, m, h[..n]);
  }

  lemma MagicOnly(h: seq<byte>)
    requires |h| >= 4
    ensures IsSkippable(h[..4]) == IsSkippable(h)
  {
    assert ReadLE32(h[..4]) == ReadLE32(h);
  }

  /** The magic number of a skippable frame at the start of `h`. */
  lemma {:induction false} SkippableInPlace(c: Ctx, m: Machine, h: seq<byte>)
    requires m.phase == Collect(KHeader, MIN_HEADER, []) && |h| >= MIN_HEADER && IsSkippable(h) && m.out == []
             && c.remaining == 0
    ensures StageOk(c.(stage := GetSFrameSize), FeedAll(m, h[..4])) && FeedAll(m, h[..4]).out == m.out
  {
    hide IsSkippable, ReadLE32, HeaderTargetOk, SkipSizeOk, FeedAll, Complete;
    MagicOnly(h);
    FeedCollect(m, KHeader, MIN_HEADER, [], h[..4]);
    assert h[..4] == [] + h[..4];
  }

  /** Plenty of input: the header is decoded where it stands. */
  method HeaderInPlace(c: Ctx, src: seq<byte>, p: nat, rule: Rule<Xxh32.Lanes, bv32>, start: Xxh32.Lanes,
                       ghost m: Machine)
    returns (r: Outcome, c1: Ctx, q: nat)
    requires c.stage == GetFrameHeader && StageOk(c, m) && WellFormed(m) && IsSum(m.sum, rule, start)
    requires p + MAX_HEADER <= |src|
    ensures Follows(src, p, m, r, q, c1) && r in {Go, Broken}
    ensures r == Go ==> q > p && c1.stage in {Init, GetSFrameSize} && FeedAll(m, src[p..q]).out == m.out
  {
    hide IsSum, HeaderInfo, FlagsOk, DescriptorOk, HeaderSize, ReadLE32;
    ghost var h := src[p..];
    var v := DecodeHeader(src[p..], rule, start, m.sum);
    c1, q := c, p;
    match v
    case Bad =>
      InvalidHeader(m, h);
      r := Broken;
    case SkipFrame =>
      q := p + 4;
      assert h[..4] == src[p..q];
      SkippableInPlace(c, m, h);
      r, c1 := Go, c.(stage := GetSFrameSize);
    case Ready(info, n) =>
      q := p + n;
      ReadyInPlace(c, m, h, info, n);
      assert h[..n] == src[p..q];
      r, c1 := Go, AfterHeader(c, info);
  }

  lemma {:induction false} InvalidHeader(m: Machine, h: seq<byte>)
    requires m.phase == Collect(KHeader, MIN_HEADER, []) && |h| >= MAX_HEADER && VerdictOn(m.sum, h) == Bad
    ensures FeedAll(m, h).phase.Failed?
  {
    if FlagsOk(h) {
      var n := HeaderSize(h);
      WholeHeader(m, h);
      VerdictPrefix(m.sum, h, h[..n]);
      FeedAllSplit(m, h, n);
      FailedStays(FeedAll(m, h[..n]), h[n..]);
    } else {
      FirstSeven(m, h);
      VerdictPrefix(m.sum, h, h[..MIN_HEADER]);
      FeedAllSplit(m, h, MIN_HEADER);
      FailedStays(FeedAll(m, h[..MIN_HEADER]), h[MIN_HEADER..]);
    }
  }

  /** What happens when the stored header has reached its target. */
  method HeaderStored(c: Ctx, h: seq<byte>, rule: Rule<Xxh32.Lanes, bv32>, start: Xxh32.Lanes, ghost m: Machine)
    returns (ok: bool, c1: Ctx)
    requires |h| == c.target && HeaderTargetOk(h, c.target) && m.out == [] && c.remaining == 0
             && IsSum(m.sum, rule, start)
    ensures if ok then StageOk(c1, OnHeader(m, h)) && OnHeader(m, h).out == [] else OnHeader(m, h).phase.Failed?
    ensures ok ==> c1.stage in {Init, StoreSFrameSize, StoreFrameHeader}
  {
    var v := DecodeHeader(h, rule, start, m.sum);
    ok, c1 := true, c;
    match v
    case Bad => ok := false;
    case SkipFrame => c1 := c.(stage := StoreSFrameSize, stored := h, target := 8);
    case Incomplete(n) => c1 := c.(stage := StoreFrameHeader, stored := h, target := n);
    case Ready(info, n) =>
      AfterHeaderOk(c, m, h);
      c1 := AfterHeader(c, info);
  }

  /** dstage_getFrameHeader and dstage_storeFrameHeader. */
  method HeaderStage(c: Ctx, src: seq<byte>, p: nat, rule: Rule<Xxh32.Lanes, bv32>, start: Xxh32.Lanes,
                     ghost m: Machine)
    returns (r: Outcome, c1: Ctx, q: nat)
    requires c.stage in {GetFrameHeader, StoreFrameHeader} && StageOk(c, m) && WellFormed(m)
             && IsSum(m.sum, rule, start)
    requires p <= |src|
    ensures Follows(src, p, m, r, q, c1) && r != Finished
    ensures r == Stop ==> q == |src|
    ensures r == Go ==> q > p
    ensures r != Broken ==> FeedAll(m, src[p..q]).out == m.out
    ensures r != Broken ==> c1.stage in {GetFrameHeader, StoreFrameHeader, Init, GetSFrameSize, StoreSFrameSize}
  {
    var c0 := c;
    if c.stage == GetFrameHeader {
      if |src| - p >= MAX_HEADER {
        r, c1, q := HeaderInPlace(c, src, p, rule, start, m);
        return;
      }
      if |src| == p {
        assert src[p..p] == [];
        return Stop, c, p;
      }
      c0 := c.(stage := StoreFrameHeader, stored := [], target := MIN_HEADER);
    }
    r, c1, q := StoreHeader(c0, src, p, rule, start, m);
  }

  method StoreHeader(c: Ctx, src: seq<byte>, p: nat, rule: Rule<Xxh32.Lanes, bv32>, start: Xxh32.Lanes,
                     ghost m: Machine)
    returns (r: Outcome, c1: Ctx, q: nat)
    requires c.stage == StoreFrameHeader && StageOk(c, m) && WellFormed(m) && IsSum(m.sum, rule, start)
    requires p <= |src|
    ensures Follows(src, p, m, r, q, c1) && r != Finished
    ensures r == Stop ==> q == |src|
    ensures r == Go ==> q > p
    ensures r != Broken ==> FeedAll(m, src[p..q]).out == m.out
    ensures r != Broken ==> c1.stage in {StoreFrameHeader, Init, StoreSFrameSize}
  {
    var all;
    all, q := Gather(c.stored, c.target, src, p);
    GatherFeeds(m, src, p, q);
    TargetStays(c.stored, src[p..q], c.target);
    if |all| < c.target {
      return Stop, c.(stored := all), q;
    }
    var ok;
    ok, c1 := HeaderStored(c, all, rule, start, m);
    if ok {
      r := Go;
    } else {
      FailsEarly(m, src, p, q);
      r := Broken;
    }
  }

  lemma TargetStays(stored: seq<byte>, s: seq<byte>, target: nat)
    requires HeaderTargetOk(stored, target)
    ensures HeaderTargetOk(stored + s, target)
  {
  }
}
