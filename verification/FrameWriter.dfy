/**
 Frames as the LZ4 frame format (section "General Structure of LZ4 Frame format" of its specification) has them written,
 field by field and from the meaning of each. The machine reads back what was written, and takes nothing else for a
 header.
 */
module FrameWriter {
  import opened Bytes
  import opened BlockFormat
  import opened BlockAcceptance
  import opened FrameFormat
  import BlockCompressor

  // ---------------------------------------------------------------- numbers

  /** The lowest `k` bytes of a number, the least significant one first. */
  function LE(n: nat, k: nat): (w: seq<byte>)
    ensures |w| == k
  {
    if k == 0 then [] else [n % 256] + LE(n / 256, k - 1)
  }

  /** The number whose bytes these are. */
  function Value(w: seq<byte>): nat {
    if w == [] then 0 else w[0] + 256 * Value(w[1..])
  }

  function Limit(k: nat): nat {
    if k == 0 then 1 else 256 * Limit(k - 1)
  }

  lemma {:induction false} WrittenValue(n: nat, k: nat)
    requires n < Limit(k)
    ensures Value(LE(n, k)) == n
    decreases k
  {
    if k > 0 {
      WrittenValue(n / 256, k - 1);
      assert LE(n, k)[1..] == LE(n / 256, k - 1);
    }
  }

  lemma {:induction false} ValueWritten(w: seq<byte>)
    ensures Value(w) < Limit(|w|) && LE(Value(w), |w|) == w
    decreases |w|
  {
    if w != [] {
      ValueWritten(w[1..]);
      FirstByte(w[0], Value(w[1..]), |w| - 1);
    }
  }

  lemma {:induction false} FirstByte(b: byte, v: nat, k: nat)
    requires v < Limit(k)
    ensures b + 256 * v < Limit(k + 1) && LE(b + 256 * v, k + 1) == [b] + LE(v, k)
  {
    assert (b + 256 * v) % 256 == b && (b + 256 * v) / 256 == v;
  }

  lemma Limits()
    ensures Limit(4) == TWO32 && Limit(8) == TWO64
  {
    assert Limit(2) == 0x1_0000 && Limit(4) == TWO32 && Limit(6) == 0x1_0000_0000_0000;
  }

  lemma {:induction false} ReadIsValue(w: seq<byte>)
    ensures |w| == 4 ==> ReadLE32(w) == Value(w)
    ensures |w| == 8 ==> ReadLE64(w) == Value(w)
  {
    if |w| == 4 {
      ValueOfFour(w);
    } else if |w| == 8 {
      var a, b := w[..4], w[4..];
      ValueOfFour(b);
      assert Value(w) == w[0] + 256 * Value(w[1..]) && Value(w[1..]) == w[1] + 256 * Value(w[2..]);
      assert w[1..][1..] == w[2..] && w[2..][1..] == w[3..] && w[3..][1..] == w[4..];
      assert Value(w[2..]) == w[2] + 256 * Value(w[3..]) && Value(w[3..]) == w[3] + 256 * Value(w[4..]);
    }
  }

  lemma {:induction false} ValueOfFour(w: seq<byte>)
    requires |w| == 4
    ensures ReadLE32(w) == Value(w)
  {
    assert w[1..][1..] == w[2..] && w[2..][1..] == w[3..] && w[3..][1..] == [];
    assert Value(w[3..]) == w[3];
    assert Value(w[2..]) == w[2] + 256 * Value(w[3..]);
    assert Value(w[1..]) == w[1] + 256 * Value(w[2..]);
  }

  lemma {:induction false} ReadsFour(n: nat)
    requires n < TWO32
    ensures ReadLE32(LE(n, 4)) == n
  {
    Limits();
    hide LE, ReadLE32, Limit;
    WrittenValue(n, 4);
    ReadIsValue(LE(n, 4));
  }

  lemma {:induction false} ReadsEight(n: nat)
    requires n < TWO64
    ensures ReadLE64(LE(n, 8)) == n
  {
    Limits();
    hide LE, ReadLE64, Limit;
    WrittenValue(n, 8);
    ReadIsValue(LE(n, 8));
  }

  // ---------------------------------------------------------------- the header

  /** What a header says, in its own terms. Block sizes 4 to 7 stand for 64 KB, 256 KB, 1 MB and 4 MB. */
  datatype Choice = Choice(independent: bool, blockCrc: bool, size: Option<nat>, contentCrc: bool,
                           dictId: Option<nat>, id: nat)

  predicate Expressible(ch: Choice) {
    && 4 <= ch.id <= 7
    && (ch.size.Some? ==> ch.size.value < TWO64) && (ch.dictId.Some? ==> ch.dictId.value < TWO32)
  }

  function Weight(b: bool, w: nat): nat {
    if b then w else 0
  }

  /** Version 1 counts 64; each announcement has a weight of its own. */
  function FlagByte(ch: Choice): (f: byte)
    ensures f < 128
  {
    64 + Weight(ch.independent, 32) + Weight(ch.blockCrc, 16) + Weight(ch.size.Some?, 8) + Weight(ch.contentCrc, 4)
    + Weight(ch.dictId.Some?, 1)
  }

  function Optional(n: Option<nat>, k: nat): seq<byte> {
    if n.Some? then LE(n.value, k) else []
  }

  function Descriptor(ch: Choice): seq<byte>
    requires Expressible(ch)
  {
    [FlagByte(ch), 16 * ch.id] + Optional(ch.size, 8) + Optional(ch.dictId, 4)
  }

  /** Magic number, descriptor, and the second byte of the checksum of the descriptor. */
  ghost function Header(sum: seq<byte> -> nat, ch: Choice): seq<byte>
    requires Expressible(ch)
  {
    [0x04, 0x22, 0x4D, 0x18] + Descriptor(ch) + [sum(Descriptor(ch)) / 256 % 256]
  }

  function Four(k: nat): nat {
    if k == 0 then 1 else 4 * Four(k - 1)
  }

  function Announced(ch: Choice): Info {
    Info(!ch.independent, ch.blockCrc, ch.contentCrc, if ch.size.Some? then ch.size.value else 0, 256 * Four(ch.id))
  }

  lemma FlagBits(ch: Choice)
    ensures var f := FlagByte(ch);
            && f as int / 64 == 1 && Bit(f, 1) == 0 && Bit(f, 5) == Weight(ch.independent, 1)
            && Bit(f, 4) == Weight(ch.blockCrc, 1) && Bit(f, 3) == Weight(ch.size.Some?, 1)
            && Bit(f, 2) == Weight(ch.contentCrc, 1) && Bit(f, 0) == Weight(ch.dictId.Some?, 1)
  {
    Weighed(ch);
    hide FlagByte;
    FlagDigits(FlagByte(ch), Weight(ch.independent, 1), Weight(ch.blockCrc, 1), Weight(ch.size.Some?, 1),
               Weight(ch.contentCrc, 1), Weight(ch.dictId.Some?, 1));
  }

  lemma FlagDigits(f: nat, a: nat, b: nat, c: nat, d: nat, e: nat)
    requires a <= 1 && b <= 1 && c <= 1 && d <= 1 && e <= 1 && f == 64 + 32 * a + 16 * b + 8 * c + 4 * d + e
    ensures f / 64 == 1 && f / 32 % 2 == a && f / 16 % 2 == b && f / 8 % 2 == c && f / 4 % 2 == d && f / 2 % 2 == 0
    ensures f % 2 == e
  {
    assert f / 2 == 32 + 16 * a + 8 * b + 4 * c + 2 * d && f / 4 == 16 + 8 * a + 4 * b + 2 * c + d;
    assert f / 8 == 8 + 4 * a + 2 * b + c && f / 16 == 4 + 2 * a + b && f / 32 == 2 + a;
  }

  lemma Sizes(id: nat)
    requires 4 <= id <= 7
    ensures BlockSize(id) == 256 * Four(id) && 16 * id / 16 % 8 == id && Bit(16 * id, 7) == 0 && 16 * id % 16 == 0
  {
    assert Four(4) == 256 && Four(5) == 1024 && Four(6) == 4096 && Four(7) == 16384;
  }

  /** The parts of a header, where the reader looks for them. */
  lemma {:induction false} HeaderParts(sum: seq<byte> -> nat, ch: Choice, h: seq<byte>)
    requires Expressible(ch) && h == Header(sum, ch)
    ensures |h| == 7 + Weight(ch.size.Some?, 8) + Weight(ch.dictId.Some?, 4)
    ensures h[0] == 0x04 && h[1] == 0x22 && h[2] == 0x4D && h[3] == 0x18 && h[4] == FlagByte(ch) && h[5] == 16 * ch.id
    ensures ch.size.Some? ==> h[6..14] == LE(ch.size.value, 8)
    ensures h[4..|h| - 1] == Descriptor(ch) && h[|h| - 1] == sum(Descriptor(ch)) / 256 % 256
  {
    hide FlagByte, LE;
    var d := Descriptor(ch);
    assert h[4..|h| - 1] == d;
    assert h[4] == d[0] && h[5] == d[1];
    if ch.size.Some? {
      assert d[2..10] == LE(ch.size.value, 8);
      assert h[6..14] == d[2..10];
    }
  }

  /** A header is read back as what it was written to say. */
  lemma {:induction false} HeaderRead(sum: seq<byte> -> nat, ch: Choice, h: seq<byte>)
    requires Expressible(ch) && h == Header(sum, ch)
    ensures |h| >= MIN_HEADER && !IsSkippable(h) && FlagsOk(h) && HeaderSize(h) == |h| && DescriptorOk(sum, h, |h|)
    ensures HeaderInfo(h) == Announced(ch)
  {
    HeaderParts(sum, ch, h);
    FlagBits(ch);
    Sizes(ch.id);
    hide Header, Descriptor, FlagByte, Four;
    if ch.size.Some? {
      ReadsEight(ch.size.value);
    }
  }

  /** What a header with valid flags says. */
  function ChoiceOf(h: seq<byte>): Choice
    requires |h| >= MIN_HEADER && HeaderSize(h) <= |h|
  {
    var sized, dict := Bit(h[4], 3) == 1, Bit(h[4], 0) == 1;
    var at := if sized then 14 else 6;
    Choice(Bit(h[4], 5) == 1, Bit(h[4], 4) == 1, if sized then Some(Value(h[6..14])) else None,
           Bit(h[4], 2) == 1, if dict then Some(Value(h[at..at + 4])) else None, h[5] / 16)
  }

  lemma {:induction false} ChoiceIs(h: seq<byte>)
    requires |h| >= MIN_HEADER && FlagsOk(h) && HeaderSize(h) <= |h|
    requires Bit(h[5], 7) == 0 && h[5] / 16 % 8 >= 4 && h[5] % 16 == 0
    ensures var ch := ChoiceOf(h); Expressible(ch) && FlagByte(ch) == h[4] && 16 * ch.id == h[5]
  {
    var ch := ChoiceOf(h);
    FlagsOfBits(h[4], ch);
    hide FlagByte;
    Limits();
    if ch.size.Some? {
      ValueWritten(h[6..14]);
    }
    if ch.dictId.Some? {
      var at := if ch.size.Some? then 14 else 6;
      ValueWritten(h[at..at + 4]);
    }
  }

  /** Its optional fields stand where they are looked for. */
  lemma {:induction false} FieldsAre(h: seq<byte>)
    requires |h| >= MIN_HEADER && HeaderSize(h) == |h|
    ensures var ch := ChoiceOf(h); h[4..|h| - 1] == [h[4], h[5]] + Optional(ch.size, 8) + Optional(ch.dictId, 4)
  {
    hide LE, Value;
    var ch := ChoiceOf(h);
    Pieces(h, ch.size.Some?, ch.dictId.Some?);
    if ch.size.Some? {
      ValueWritten(h[6..14]);
    }
    if ch.dictId.Some? {
      var at := if ch.size.Some? then 14 else 6;
      ValueWritten(h[at..at + 4]);
    }
  }

  /** Every header that is accepted is one that can be written. */
  lemma {:induction false} HeaderWritten(sum: seq<byte> -> nat, h: seq<byte>)
    requires |h| >= MIN_HEADER && FlagsOk(h) && HeaderSize(h) == |h| && DescriptorOk(sum, h, |h|)
    ensures Expressible(ChoiceOf(h)) && h == Header(sum, ChoiceOf(h))
  {
    MagicBytes(h);
    hide ChoiceOf, FlagByte, ReadLE32, Optional, Bit;
    ChoiceIs(h);
    FieldsAre(h);
    assert h == h[..4] + h[4..|h| - 1] + [h[|h| - 1]];
    assert h[..4] == [0x04, 0x22, 0x4D, 0x18];
  }

  lemma Pieces(h: seq<byte>, sized: bool, dict: bool)
    requires |h| == 7 + Weight(sized, 8) + Weight(dict, 4)
    ensures var at := if sized then 14 else 6;
            h[4..|h| - 1] == [h[4], h[5]] + (if sized then h[6..14] else []) + (if dict then h[at..at + 4] else [])
  {
    var d, two := h[4..|h| - 1], [h[4], h[5]];
    if sized && dict {
      assert d == two + h[6..14] + h[14..18];
    } else if sized {
      assert d == two + h[6..14] + [];
    } else if dict {
      assert d == two + [] + h[6..10];
    } else {
      assert d == two + [] + [];
    }
  }

  lemma MagicBytes(h: seq<byte>)
    requires |h| >= 4 && ReadLE32(h) == MAGIC
    ensures h[0] == 0x04 && h[1] == 0x22 && h[2] == 0x4D && h[3] == 0x18
  {
  }

  lemma {:induction false} FlagsOfBits(f: byte, ch: Choice)
    requires f / 64 == 1 && Bit(f, 1) == 0
    requires Bit(f, 5) == Weight(ch.independent, 1) && Bit(f, 4) == Weight(ch.blockCrc, 1)
    requires Bit(f, 3) == Weight(ch.size.Some?, 1) && Bit(f, 2) == Weight(ch.contentCrc, 1)
    requires Bit(f, 0) == Weight(ch.dictId.Some?, 1)
    ensures f == FlagByte(ch)
  {
    hide Bit, FlagByte, Weight;
    FlagSum(f);
    Weighed(ch);
    SameSum(f, FlagByte(ch), Bit(f, 5), Bit(f, 4), Bit(f, 3), Bit(f, 2), Bit(f, 0));
  }

  lemma Weighed(ch: Choice)
    ensures FlagByte(ch) == 64 + 32 * Weight(ch.independent, 1) + 16 * Weight(ch.blockCrc, 1)
                            + 8 * Weight(ch.size.Some?, 1) + 4 * Weight(ch.contentCrc, 1) + Weight(ch.dictId.Some?, 1)
  {
  }

  lemma SameSum(f: nat, g: nat, a: nat, b: nat, c: nat, d: nat, e: nat)
    requires f == 64 + 32 * a + 16 * b + 8 * c + 4 * d + e && g == 64 + 32 * a + 16 * b + 8 * c + 4 * d + e
    ensures f == g
  {
  }

  lemma BitsAre(f: byte)
    ensures Bit(f, 0) == f % 2 && Bit(f, 1) == f / 2 % 2 && Bit(f, 2) == f / 4 % 2 && Bit(f, 3) == f / 8 % 2
    ensures Bit(f, 4) == f / 16 % 2 && Bit(f, 5) == f / 32 % 2
  {
  }

  lemma FlagSum(f: byte)
    requires f / 64 == 1 && Bit(f, 1) == 0
    ensures f == 64 + 32 * Bit(f, 5) + 16 * Bit(f, 4) + 8 * Bit(f, 3) + 4 * Bit(f, 2) + Bit(f, 0)
  {
    hide Bit;
    BitsAre(f);
    OneDigit(f / 32);
    OneDigit(f / 16);
    OneDigit(f / 8);
    OneDigit(f / 4);
    OneDigit(f / 2);
    OneDigit(f);
    Quotients(f);
  }

  lemma OneDigit(x: nat)
    ensures x == 2 * (x / 2) + x % 2
  {
  }

  lemma Quotients(x: nat)
    ensures x / 2 / 2 == x / 4 && x / 4 / 2 == x / 8 && x / 8 / 2 == x / 16 && x / 16 / 2 == x / 32
    ensures x / 32 / 2 == x / 64
  {
  }

  /** Fed to the machine, a header announces what it was written to say, whichever way its bytes are fed. */
  lemma {:induction false} HeaderFeeds(m: Machine, ch: Choice)
    requires m.phase == Collect(KHeader, MIN_HEADER, []) && Expressible(ch)
    ensures FeedAll(m, Header(m.sum, ch)) == ToBlockHead(m, Announced(ch))
  {
    var h := Header(m.sum, ch);
    HeaderRead(m.sum, ch, h);
    hide Header, HeaderInfo, Announced, ReadLE32, DescriptorOk;
    var a, b := h[..MIN_HEADER], h[MIN_HEADER..];
    FirstBytes(h, a);
    FeedCollect(m, KHeader, MIN_HEADER, [], a);
    assert [] + a == a && a + b == h;
    FeedConcat(m, a, b);
    if |h| == MIN_HEADER {
      assert a == h;
    } else {
      var m1 := m.(phase := Collect(KHeader, |h|, a));
      FeedCollect(m1, KHeader, |h|, a, b);
    }
  }

  /** The first bytes tell the length. */
  lemma FirstBytes(h: seq<byte>, a: seq<byte>)
    requires |h| >= MIN_HEADER && a == h[..MIN_HEADER]
    ensures IsSkippable(a) == IsSkippable(h) && FlagsOk(a) == FlagsOk(h) && HeaderSize(a) == HeaderSize(h)
  {
  }

  // ---------------------------------------------------------------- blocks

  /** A block: bytes as they are, or a compressed block. */
  datatype Block = Plainly(data: seq<byte>) | Packed(body: seq<byte>)

  ghost function Crc(sum: seq<byte> -> nat, on: bool, data: seq<byte>): seq<byte> {
    if on then LE(sum(data), 4) else []
  }

  /** 2^31 is added to the size of a block that is not compressed. */
  ghost function WriteBlock(sum: seq<byte> -> nat, ch: Choice, b: Block): seq<byte> {
    match b
    case Plainly(data) => LE(TWO31 + |data|, 4) + (data + Crc(sum, ch.blockCrc, data))
    case Packed(body) => LE(|body|, 4) + (body + Crc(sum, ch.blockCrc, body))
  }

  ghost function WriteBlocks(sum: seq<byte> -> nat, ch: Choice, bs: seq<Block>): seq<byte> {
    if bs == [] then [] else WriteBlocks(sum, ch, bs[..|bs| - 1]) + WriteBlock(sum, ch, bs[|bs| - 1])
  }

  /** Header, blocks, an empty block as end mark, and the checksum of the contents. */
  ghost function WriteFrame(sum: seq<byte> -> nat, ch: Choice, bs: seq<Block>, content: seq<byte>): seq<byte>
    requires Expressible(ch)
  {
    Header(sum, ch) + WriteBlocks(sum, ch, bs) + (LE(0, 4) + Crc(sum, ch.contentCrc, content))
  }

  /** What the blocks decode to, one after the other. */
  ghost function Contents(ch: Choice, bs: seq<Block>): Option<seq<byte>> {
    if bs == [] then Some([])
    else
      match Contents(ch, bs[..|bs| - 1])
      case None => None
      case Some(out) =>
        match bs[|bs| - 1]
        case Plainly(data) => if 0 < |data| <= 256 * Four(ch.id) then Some(out + data) else None
        case Packed(body) => Appended(ch, out, body)
  }

  /** Behind `out`, with all of it as history unless the blocks are independent. */
  ghost function Appended(ch: Choice, out: seq<byte>, body: seq<byte>): Option<seq<byte>> {
    var h := if ch.independent then [] else out;
    if 0 < |body| <= 256 * Four(ch.id) && Decode(body, 0, h).Some? && WellEnded(body, 0, false)
       && |h| <= |Decode(body, 0, h).value| <= |h| + 256 * Four(ch.id)
    then Some(out + Decode(body, 0, h).value[|h|..]) else None
  }

  /** A checksum function with 32-bit values. */
  ghost predicate Checksum(sum: seq<byte> -> nat) {
    forall d :: sum(d) < TWO32
  }

  lemma {:induction false} FieldFeeds(m: Machine, kind: Kind, n: nat)
    requires m.phase == Collect(kind, 4, []) && KindOk(kind, 4) && n < TWO32 && !kind.KBlock? && !kind.KHeader?
    ensures FeedAll(m, LE(n, 4)) == Complete(m, kind, LE(n, 4)) && ReadLE32(LE(n, 4)) == n
  {
    ReadsFour(n);
    hide LE, Complete;
    assert [] + LE(n, 4) == LE(n, 4);
    FeedCollect(m, kind, 4, [], LE(n, 4));
  }

  /** Four bytes are the checksum if they read as its value. */
  lemma {:induction false} SumMatches(sum: seq<byte> -> nat, data: seq<byte>, w: seq<byte>)
    requires Checksum(sum) && |w| == 4
    ensures ReadLE32(w) == sum(data) <==> w == LE(sum(data), 4)
  {
    hide LE, ReadLE32, Value;
    ReadsFour(sum(data));
    ReadIsValue(w);
    ValueWritten(w);
  }

  lemma {:induction false} CollectFeeds(m: Machine, kind: Kind, w: seq<byte>)
    requires m.phase == Collect(kind, |w|, []) && w != [] && KindOk(kind, |w|)
    ensures FeedAll(m, w) == Complete(m, kind, w)
  {
    hide Complete;
    assert [] + w == w;
    FeedCollect(m, kind, |w|, [], w);
  }

  /** An uncompressed block is output as it is, and refused afterwards if its checksum is wrong. */
  lemma {:induction false} PlainBlockFeeds(m: Machine, ch: Choice, data: seq<byte>, crc: seq<byte>)
    requires m.phase == Collect(KBlockHead(Announced(ch)), 4, []) && Checksum(m.sum) && 4 <= ch.id <= 7
    requires 0 < |data| <= 256 * Four(ch.id) && |crc| == CrcSize(Announced(ch))
    ensures FeedAll(m, LE(TWO31 + |data|, 4) + (data + crc)) ==
            if crc == Crc(m.sum, ch.blockCrc, data) then m.(out := m.out + data)
            else m.(out := m.out + data, phase := Failed)
  {
    Sizes(ch.id);
    hide LE, Four, FeedAll, ReadLE32;
    var info := Announced(ch);
    FieldFeeds(m, KBlockHead(info), TWO31 + |data|);
    var m1 := m.(phase := Raw(info, |data|, []));
    assert FeedAll(m, LE(TWO31 + |data|, 4)) == m1;
    FeedConcat(m, LE(TWO31 + |data|, 4), data + crc);
    FeedConcat(m1, data, crc);
    FeedRaw(m1, info, |data|, [], data);
    assert [] + data == data;
    var m2 := m.(out := m.out + data);
    if ch.blockCrc {
      SumMatches(m.sum, data, crc);
      CollectFeeds(m2.(phase := Collect(KRawCrc(info, data), 4, [])), KRawCrc(info, data), crc);
    } else {
      NothingFed(ToBlockHead(m2, info));
    }
  }

  lemma NothingFed(m: Machine)
    requires WellFormed(m)
    ensures FeedAll(m, []) == m
  {
  }

  /** A compressed block is output as what it decodes to, unless its checksum is wrong. */
  lemma {:induction false} PackedBlockFeeds(m: Machine, ch: Choice, body: seq<byte>, crc: seq<byte>)
    requires m.phase == Collect(KBlockHead(Announced(ch)), 4, []) && Checksum(m.sum) && 4 <= ch.id <= 7 && m.regular
    requires Appended(ch, m.out, body).Some? && |crc| == CrcSize(Announced(ch))
    ensures FeedAll(m, LE(|body|, 4) + (body + crc)) ==
            if crc == Crc(m.sum, ch.blockCrc, body) then m.(out := Appended(ch, m.out, body).value)
            else m.(phase := Failed)
  {
    hide LE, Four, FeedAll, ReadLE32, Appended, Crc, OnBlock, OnBlockHead;
    var info := Announced(ch);
    PackedStarts(m, ch, body);
    FieldFeeds(m, KBlockHead(info), |body|);
    var m1 := m.(phase := Collect(KBlock(info), |body| + CrcSize(info), []));
    FeedConcat(m, LE(|body|, 4), body + crc);
    CollectFeeds(m1, KBlock(info), body + crc);
    PackedIs(m1, ch, body, crc);
  }

  lemma {:induction false} PackedStarts(m: Machine, ch: Choice, body: seq<byte>)
    requires 4 <= ch.id <= 7 && Appended(ch, m.out, body).Some?
    ensures 0 < |body| < TWO31
    ensures OnBlockHead(m, Announced(ch), |body|) ==
            m.(phase := Collect(KBlock(Announced(ch)), |body| + CrcSize(Announced(ch)), []))
  {
    hide Four, Decode, WellEnded;
    Sizes(ch.id);
  }

  lemma {:induction false} PackedIs(m: Machine, ch: Choice, body: seq<byte>, crc: seq<byte>)
    requires Checksum(m.sum) && 4 <= ch.id <= 7 && m.regular
    requires Appended(ch, m.out, body).Some? && |crc| == CrcSize(Announced(ch))
    ensures OnBlock(m, Announced(ch), body + crc) ==
            if crc == Crc(m.sum, ch.blockCrc, body)
            then ToBlockHead(m, Announced(ch)).(out := Appended(ch, m.out, body).value)
            else m.(phase := Failed)
  {
    Sizes(ch.id);
    hide LE, Four, ReadLE32, Decode, WellEnded, AcceptedAt;
    assert (body + crc)[..|body|] == body && (body + crc)[|body|..] == crc;
    if ch.blockCrc {
      SumMatches(m.sum, body, crc);
    }
    WellEndedStaysRegular(m, Announced(ch), body);
  }

  lemma {:induction false} BlockFeeds(m: Machine, ch: Choice, bs: seq<Block>)
    requires m.phase == Collect(KBlockHead(Announced(ch)), 4, []) && Checksum(m.sum) && 4 <= ch.id <= 7 && m.regular
    requires bs != [] && Contents(ch, bs).Some? && Contents(ch, bs[..|bs| - 1]) == Some(m.out)
    ensures FeedAll(m, WriteBlock(m.sum, ch, bs[|bs| - 1])) == m.(out := Contents(ch, bs).value)
  {
    hide LE, Four, FeedAll, Appended;
    match bs[|bs| - 1]
    case Plainly(data) => PlainBlockFeeds(m, ch, data, Crc(m.sum, ch.blockCrc, data));
    case Packed(body) => PackedBlockFeeds(m, ch, body, Crc(m.sum, ch.blockCrc, body));
  }

  lemma {:induction false} BlocksFeed(m: Machine, ch: Choice, bs: seq<Block>)
    requires m.phase == Collect(KBlockHead(Announced(ch)), 4, []) && Checksum(m.sum) && 4 <= ch.id <= 7 && m.regular
    requires m.out == [] && Contents(ch, bs).Some?
    ensures FeedAll(m, WriteBlocks(m.sum, ch, bs)) == m.(out := Contents(ch, bs).value)
    decreases |bs|
  {
    if bs == [] {
      NothingFed(m);
    } else {
      var start := bs[..|bs| - 1];
      BlocksFeed(m, ch, start);
      hide FeedAll, WriteBlock;
      FeedConcat(m, WriteBlocks(m.sum, ch, start), WriteBlock(m.sum, ch, bs[|bs| - 1]));
      BlockFeeds(m.(out := Contents(ch, start).value), ch, bs);
    }
  }

  /** The size that was announced, if one was, is that of the contents. */
  predicate SizeRight(ch: Choice, n: nat) {
    ch.size.Some? && ch.size.value != 0 ==> n % TWO64 == ch.size.value
  }

  /** At the end mark the announced size must have been reached, and the checksum that follows must be right. */
  lemma {:induction false} EndFeeds(m: Machine, ch: Choice, crc: seq<byte>)
    requires m.phase == Collect(KBlockHead(Announced(ch)), 4, []) && Checksum(m.sum)
    requires |crc| == if ch.contentCrc then 4 else 0
    ensures FeedAll(m, LE(0, 4) + crc) ==
            m.(phase := if SizeRight(ch, |m.out|) && crc == Crc(m.sum, ch.contentCrc, m.out) then Done else Failed)
  {
    hide LE, Four, FeedAll, ReadLE32;
    var info := Announced(ch);
    FieldFeeds(m, KBlockHead(info), 0);
    FeedConcat(m, LE(0, 4), crc);
    if !SizeRight(ch, |m.out|) {
      FailedKeeps(m.(phase := Failed), crc);
    } else if ch.contentCrc {
      SumMatches(m.sum, m.out, crc);
      CollectFeeds(m.(phase := Collect(KSuffix(info), 4, [])), KSuffix(info), crc);
    } else {
      NothingFed(m.(phase := Done));
    }
  }

  lemma {:induction false} FailedKeeps(m: Machine, s: seq<byte>)
    requires m.phase == Failed
    ensures FeedAll(m, s) == m
    decreases |s|
  {
    if s != [] {
      FailedKeeps(m, s[1..]);
    }
  }

  /** What is written is read: a frame ends the machine with the contents of its blocks as output. */
  lemma {:induction false} FrameRoundTrip(sum: seq<byte> -> nat, ch: Choice, bs: seq<Block>)
    requires Checksum(sum) && Expressible(ch) && Contents(ch, bs).Some? && SizeRight(ch, |Contents(ch, bs).value|)
    ensures var m := FeedAll(Initial(sum), WriteFrame(sum, ch, bs, Contents(ch, bs).value));
            m.phase == Done && m.out == Contents(ch, bs).value && m.regular
  {
    hide FeedAll, Header, WriteBlocks, Contents, LE;
    var m0, content := Initial(sum), Contents(ch, bs).value;
    HeaderFeeds(m0, ch);
    var m1 := ToBlockHead(m0, Announced(ch));
    BlocksFeed(m1, ch, bs);
    FeedConcat(m0, Header(sum, ch), WriteBlocks(sum, ch, bs));
    EndFeeds(m1.(out := content), ch, Crc(sum, ch.contentCrc, content));
    FeedConcat(m0, Header(sum, ch) + WriteBlocks(sum, ch, bs), LE(0, 4) + Crc(sum, ch.contentCrc, content));
  }

  // ---------------------------------------------------------------- compressed frames

  ghost function Concat(pieces: seq<seq<byte>>): seq<byte> {
    if pieces == [] then [] else Concat(pieces[..|pieces| - 1]) + pieces[|pieces| - 1]
  }

  /** A piece as the block compressor leaves it, or as it is where that would be too large. */
  ghost predicate Carries(ch: Choice, b: Block, piece: seq<byte>) {
    && 0 < |piece| <= 256 * Four(ch.id)
    && match b
       case Plainly(data) => data == piece
       case Packed(body) => 0 < |body| <= 256 * Four(ch.id) && BlockCompressor.Compresses(piece, body)
  }

  /** Independent blocks that carry pieces of some data: the frame holds the data. */
  lemma {:induction false} CompressedContents(ch: Choice, bs: seq<Block>, pieces: seq<seq<byte>>)
    requires ch.independent && |bs| == |pieces| && forall i :: 0 <= i < |bs| ==> Carries(ch, bs[i], pieces[i])
    ensures Contents(ch, bs) == Some(Concat(pieces))
    decreases |bs|
  {
    hide Decode, WellEnded, Four;
    if bs != [] {
      var n := |bs| - 1;
      CompressedContents(ch, bs[..n], pieces[..n]);
      assert Carries(ch, bs[n], pieces[n]);
      if bs[n].Packed? {
        assert pieces[n][0..] == pieces[n];
      }
    }
  }

  // ---------------------------------------------------------------- skippable frames

  /** One of sixteen magic numbers, the size, and bytes that mean nothing here. */
  function Skippable(k: nat, data: seq<byte>): seq<byte>
    requires k < 16
  {
    [0x50 + k, 0x2A, 0x4D, 0x18] + LE(|data|, 4) + data
  }

  /** These numbers and no others. */
  lemma SkippableMagic(h: seq<byte>)
    requires |h| >= 4
    ensures IsSkippable(h) <==> 0x50 <= h[0] < 0x60 && h[1] == 0x2A && h[2] == 0x4D && h[3] == 0x18
  {
  }

  /** Its first eight bytes say how much is to be skipped. */
  lemma {:induction false} SkippableHeader(m: Machine, k: nat, n: nat)
    requires m.phase == Collect(KHeader, MIN_HEADER, []) && k < 16 && n < TWO32
    ensures FeedAll(m, [0x50 + k, 0x2A, 0x4D, 0x18] + LE(n, 4)) == m.(phase := if n == 0 then Done else Skip(n))
  {
    ReadsFour(n);
    hide LE, ReadLE32, FeedAll;
    var h := [0x50 + k, 0x2A, 0x4D, 0x18] + LE(n, 4);
    var a, b := h[..7], h[7..];
    assert [] + a == a && a + b == h && h[4..] == LE(n, 4);
    SkippableMagic(a);
    SkippableMagic(h);
    FeedCollect(m, KHeader, MIN_HEADER, [], a);
    FeedConcat(m, a, b);
    FeedCollect(m.(phase := Collect(KHeader, 8, a)), KHeader, 8, a, b);
  }

  /** A skippable frame is skipped to its end and no further, without output. */
  lemma {:induction false} SkippableRoundTrip(m: Machine, k: nat, data: seq<byte>)
    requires m.phase == Collect(KHeader, MIN_HEADER, []) && k < 16 && |data| < TWO32
    ensures FeedAll(m, Skippable(k, data)) == m.(phase := Done)
  {
    hide LE, FeedAll;
    SkippableHeader(m, k, |data|);
    FeedConcat(m, [0x50 + k, 0x2A, 0x4D, 0x18] + LE(|data|, 4), data);
    if data == [] {
      NothingFed(m.(phase := Done));
    } else {
      FeedSkip(m.(phase := Skip(|data|)), |data|, data);
    }
  }
}
