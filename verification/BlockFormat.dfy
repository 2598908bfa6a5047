/**
 The LZ4 block format, independent of any implementation: a reference decoder that grows the
 output one byte at a time, an encoder for a list of sequences, and what the two promise.
 Match offsets of zero are not part of the format; the reference gives them the meaning the
 shipped decoder gives them (a run of zero bytes), so that it is defined on every input.
 */
module BlockFormat {
  import opened Bytes

  const MINMATCH := 4
  const LASTLITERALS := 5
  const MFLIMIT := 12
  const MAX_DISTANCE := 65535

  // ---------------------------------------------------------------- reference decoder

  /** A decoded length field and the position just behind it. */
  datatype Field = Field(len: nat, next: nat)

  /** Length extension: bytes are added up until one that is not 255. */
  function ReadLength(src: seq<byte>, ip: nat, acc: nat): (r: Option<Field>)
    requires ip <= |src|
    ensures r.Some? ==> ip < r.value.next <= |src| && r.value.len >= acc
    decreases |src| - ip
  {
    if ip == |src| then None
    else if src[ip] == 255 then ReadLength(src, ip + 1, acc + 255)
    else Some(Field(acc + src[ip], ip + 1))
  }

  /** Number of literals announced by the token at `ip`, and where they start. */
  function LiteralRun(src: seq<byte>, ip: nat): (r: Option<Field>)
    requires ip < |src|
    ensures r.Some? ==> ip < r.value.next <= |src|
  {
    if src[ip] / 16 == 15 then ReadLength(src, ip + 1, 15) else Some(Field(src[ip] / 16, ip + 1))
  }

  function OffsetAt(src: seq<byte>, mp: nat): (r: nat)
    requires mp + 2 <= |src|
    ensures r <= MAX_DISTANCE
  {
    src[mp] + 256 * (src[mp + 1] as int)
  }

  /** Length of the match of the sequence whose token is at `ip` and whose offset is at `mp`. */
  function MatchRun(src: seq<byte>, ip: nat, mp: nat): (r: Option<Field>)
    requires ip < |src| && mp + 2 <= |src|
    ensures r.Some? ==> mp + 2 <= r.value.next <= |src| && r.value.len >= MINMATCH
  {
    if src[ip] % 16 == 15 then ReadLength(src, mp + 2, 15 + MINMATCH)
    else Some(Field(src[ip] % 16 + MINMATCH, mp + 2))
  }

  /** The history `h` extended by `len` bytes, each taken `offset` bytes before the current end. */
  ghost function CopyMatch(h: seq<byte>, offset: nat, len: nat): (r: seq<byte>)
    requires offset <= |h|
    ensures |r| == |h| + len
    decreases len
  {
    if len == 0 then h
    else CopyMatch(h + [if offset == 0 then 0 else h[|h| - offset]], offset, len - 1)
  }

  /** What one sequence does to the decoder: stop with an error, finish the block, or go on. */
  datatype Step = Bad | Last(h: seq<byte>) | More(ip: nat, h: seq<byte>)

  ghost function MatchStep(src: seq<byte>, ip: nat, mp: nat, h: seq<byte>): (r: Step)
    requires ip < |src| && ip < mp <= |src|
    ensures r.More? ==> ip < r.ip <= |src| && |r.h| >= |h|
  {
    if mp + 2 > |src| then Bad
    else if OffsetAt(src, mp) > |h| then Bad
    else
      match MatchRun(src, ip, mp)
      case None => Bad
      case Some(m) => More(m.next, CopyMatch(h, OffsetAt(src, mp), m.len))
  }

  ghost function SequenceStep(src: seq<byte>, ip: nat, h: seq<byte>): (r: Step)
    requires ip <= |src|
    ensures r.More? ==> ip < r.ip <= |src|
  {
    if ip == |src| then Bad
    else
      match LiteralRun(src, ip)
      case None => Bad
      case Some(l) =>
        var mp := l.next + l.len;
        if mp > |src| then Bad
        else if mp == |src| then Last(h + src[l.next..mp])
        else MatchStep(src, ip, mp, h + src[l.next..mp])
  }

  /**
   The reference decoder. `h` is everything known so far (dictionary, then output); the result
   is the same history with the rest of the block behind it.
   */
  ghost function Decode(src: seq<byte>, ip: nat, h: seq<byte>): (r: Option<seq<byte>>)
    requires ip <= |src|
    decreases |src| - ip
  {
    match SequenceStep(src, ip, h)
    case Bad => None
    case Last(out) => Some(out)
    case More(next, out) => Decode(src, next, out)
  }

  // ---------------------------------------------------------------- facts about match copies

  /** The bytes of `r` from `from` on repeat those `offset` before them (zeros for offset 0). */
  ghost predicate Periodic(r: seq<byte>, from: nat, offset: nat) {
    && offset <= from
    && forall k :: from <= k < |r| ==> r[k] == if offset == 0 then 0 else r[k - offset]
  }

  lemma {:induction false} CopyMatchSpec(h: seq<byte>, offset: nat, len: nat)
    requires offset <= |h|
    ensures CopyMatch(h, offset, len)[..|h|] == h
    ensures Periodic(CopyMatch(h, offset, len), |h|, offset)
    decreases len
  {
    if len != 0 {
      var h' := h + [if offset == 0 then 0 else h[|h| - offset]];
      CopyMatchSpec(h', offset, len - 1);
      var r := CopyMatch(h, offset, len);
      assert r[..|h'|] == h';
      assert r[|h|] == h'[|h|];
      assert forall k :: 0 <= k < |h| ==> r[k] == h'[k];
      assert r[..|h|] == h;
    }
  }

  /** Periodicity and the starting bytes determine the result of a match copy. */
  lemma {:induction false} PeriodicIsCopyMatch(h: seq<byte>, offset: nat, r: seq<byte>)
    requires offset <= |h| <= |r|
    requires r[..|h|] == h
    requires Periodic(r, |h|, offset)
    ensures CopyMatch(h, offset, |r| - |h|) == r
    decreases |r| - |h|
  {
    if |r| == |h| {
      assert r == r[..|h|];
    } else {
      var h' := h + [if offset == 0 then 0 else h[|h| - offset]];
      assert forall k :: 0 <= k < |h| ==> r[k] == r[..|h|][k];
      assert r[..|h'|] == h';
      PeriodicIsCopyMatch(h', offset, r);
    }
  }

  /** Only the last `offset` bytes of the history matter to a match copy. */
  lemma {:induction false} CopyMatchPrefix(p: seq<byte>, h: seq<byte>, offset: nat, len: nat)
    requires offset <= |h|
    ensures CopyMatch(p + h, offset, len) == p + CopyMatch(h, offset, len)
    decreases len
  {
    if len != 0 {
      var b := [if offset == 0 then 0 else h[|h| - offset]];
      assert p + h + b == p + (h + b);
      CopyMatchPrefix(p, h + b, offset, len - 1);
    }
  }

  // ---------------------------------------------------------------- how much history matters

  /** A history and one of its suffixes that the format cannot tell apart. */
  ghost predicate EnoughHistory(p: seq<byte>, h: seq<byte>) {
    p == [] || |h| >= MAX_DISTANCE
  }

  lemma {:induction false} StepWithTruncatedHistory(p: seq<byte>, src: seq<byte>, ip: nat, h: seq<byte>)
    requires ip <= |src| && EnoughHistory(p, h)
    ensures SequenceStep(src, ip, p + h) ==
            match SequenceStep(src, ip, h)
            case Bad => Bad
            case Last(o) => Last(p + o)
            case More(next, o) => More(next, p + o)
    ensures SequenceStep(src, ip, h).More? ==> EnoughHistory(p, SequenceStep(src, ip, h).h)
  {
    if ip < |src| && LiteralRun(src, ip).Some? {
      var l := LiteralRun(src, ip).value;
      var mp := l.next + l.len;
      if mp <= |src| {
        var lit := src[l.next..mp];
        assert p + h + lit == p + (h + lit);
        if mp + 2 <= |src| && OffsetAt(src, mp) <= |h + lit| && MatchRun(src, ip, mp).Some? {
          CopyMatchPrefix(p, h + lit, OffsetAt(src, mp), MatchRun(src, ip, mp).value.len);
        }
      }
    }
  }

  /**
   Matches reach back at most 65535 bytes, so a decoder that keeps that much of its history
   decodes exactly what one that keeps all of it does.
   */
  lemma {:induction false} TruncatedHistory(p: seq<byte>, src: seq<byte>, ip: nat, h: seq<byte>)
    requires ip <= |src| && EnoughHistory(p, h)
    ensures Decode(src, ip, h).None? ==> Decode(src, ip, p + h).None?
    ensures Decode(src, ip, h).Some? ==> Decode(src, ip, p + h) == Some(p + Decode(src, ip, h).value)
    decreases |src| - ip
  {
    StepWithTruncatedHistory(p, src, ip, h);
    var s := SequenceStep(src, ip, h);
    if s.More? {
      TruncatedHistory(p, src, s.ip, s.h);
    }
  }

  /** Decoding only ever appends to the history. */
  lemma {:induction false} DecodeExtends(src: seq<byte>, ip: nat, h: seq<byte>)
    requires ip <= |src|
    ensures Decode(src, ip, h).Some? ==> h <= Decode(src, ip, h).value
    decreases |src| - ip
  {
    var s := SequenceStep(src, ip, h);
    if s.More? {
      var l := LiteralRun(src, ip).value;
      var mp := l.next + l.len;
      var h1 := h + src[l.next..mp];
      var m := MatchRun(src, ip, mp).value;
      CopyMatchSpec(h1, OffsetAt(src, mp), m.len);
      assert h1 <= s.h;
      assert h <= s.h;
      DecodeExtends(src, s.ip, s.h);
    }
  }

  // ---------------------------------------------------------------- parsing restrictions

  /** Number of bytes the block produces from the token at `ip` on, read off its length fields. */
  ghost function Extent(src: seq<byte>, ip: nat): nat
    requires ip <= |src|
    decreases |src| - ip
  {
    if ip == |src| || LiteralRun(src, ip).None? then 0
    else
      var l := LiteralRun(src, ip).value;
      var mp := l.next + l.len;
      if mp >= |src| then l.len
      else if mp + 2 > |src| || MatchRun(src, ip, mp).None? then l.len
      else l.len + MatchRun(src, ip, mp).value.len + Extent(src, MatchRun(src, ip, mp).value.next)
  }

  /**
   The end-of-block restrictions: the last five bytes are literals, and every match starts at
   least twelve bytes before the end of the block.
   */
  ghost predicate WellEnded(src: seq<byte>, ip: nat, afterMatch: bool)
    requires ip <= |src|
    decreases |src| - ip
  {
    && ip < |src| && LiteralRun(src, ip).Some?
    && var l := LiteralRun(src, ip).value;
       var mp := l.next + l.len;
       && mp <= |src|
       && (mp == |src| ==> afterMatch ==> l.len >= LASTLITERALS)
       && (mp < |src| ==>
             && mp + 2 <= |src| && MatchRun(src, ip, mp).Some?
             && var m := MatchRun(src, ip, mp).value;
                && m.len + Extent(src, m.next) >= MFLIMIT
                && WellEnded(src, m.next, true))
  }

  lemma {:induction false} DecodeLength(src: seq<byte>, ip: nat, h: seq<byte>)
    requires ip <= |src|
    ensures Decode(src, ip, h).Some? ==> |Decode(src, ip, h).value| == |h| + Extent(src, ip)
    decreases |src| - ip
  {
    var s := SequenceStep(src, ip, h);
    if s.More? {
      DecodeLength(src, s.ip, s.h);
    }
  }

  /** After a match, a block that ends well still has a token and five literals to come. */
  lemma {:induction false} WellEndedTail(src: seq<byte>, ip: nat)
    requires ip <= |src| && WellEnded(src, ip, true)
    ensures ip + 1 + LASTLITERALS <= |src|
    ensures Extent(src, ip) >= LASTLITERALS
    decreases |src| - ip
  {
    var l := LiteralRun(src, ip).value;
    var mp := l.next + l.len;
    if mp < |src| {
      WellEndedTail(src, MatchRun(src, ip, mp).value.next);
    }
  }

  // ---------------------------------------------------------------- encoder

  datatype Sequence = Sequence(literals: seq<byte>, offset: nat, matchLen: nat)

  function LengthBytes(n: nat): (r: seq<byte>)
    ensures |r| == n / 255 + 1
  {
    if n >= 255 then [255] + LengthBytes(n - 255) else [n]
  }

  function Extension(n: nat): seq<byte> {
    if n >= 15 then LengthBytes(n - 15) else []
  }

  function Nibble(n: nat): (r: nat)
    ensures r <= 15
  {
    if n >= 15 then 15 else n
  }

  /** Token and literal-length extension. */
  function Head(lits: nat, code: nat): (r: seq<byte>)
    ensures |r| == 1 + |Extension(lits)|
  {
    [Nibble(lits) * 16 + Nibble(code)] + Extension(lits)
  }

  function OffsetBytes(offset: nat): (r: seq<byte>)
    requires offset <= MAX_DISTANCE
    ensures |r| == 2
  {
    [offset % 256, offset / 256]
  }

  function EncodeSequence(q: Sequence): seq<byte>
    requires q.offset <= MAX_DISTANCE && q.matchLen >= MINMATCH
  {
    Head(|q.literals|, q.matchLen - MINMATCH) + q.literals
    + (OffsetBytes(q.offset) + Extension(q.matchLen - MINMATCH))
  }

  function EncodeLast(lit: seq<byte>): seq<byte> {
    Head(|lit|, 0) + lit
  }

  /** Every sequence has an offset the two bytes can hold and a match of at least four bytes. */
  ghost predicate Formed(qs: seq<Sequence>) {
    forall q :: q in qs ==> q.offset <= MAX_DISTANCE && q.matchLen >= MINMATCH
  }

  ghost function EncodeAll(qs: seq<Sequence>): seq<byte>
    requires Formed(qs)
  {
    if qs == [] then [] else EncodeAll(qs[..|qs| - 1]) + EncodeSequence(qs[|qs| - 1])
  }

  /** The output of a list of sequences, defined when every offset stays inside the history. */
  ghost function Expand(h: seq<byte>, qs: seq<Sequence>): Option<seq<byte>> {
    if qs == [] then Some(h)
    else
      match Expand(h, qs[..|qs| - 1])
      case None => None
      case Some(o) =>
        var q := qs[|qs| - 1];
        if q.offset > |o + q.literals| then None
        else Some(CopyMatch(o + q.literals, q.offset, q.matchLen))
  }

  ghost function TotalLength(qs: seq<Sequence>): nat {
    if qs == [] then 0
    else TotalLength(qs[..|qs| - 1]) + |qs[|qs| - 1].literals| + qs[|qs| - 1].matchLen
  }

  // ---------------------------------------------------------------- round trip

  /** `part` is what `src` holds at `ip`. */
  ghost predicate At(src: seq<byte>, ip: nat, part: seq<byte>) {
    ip + |part| <= |src| && forall k :: 0 <= k < |part| ==> part[k] == src[ip + k]
  }

  lemma {:induction false} AtSplit(src: seq<byte>, ip: nat, a: seq<byte>, b: seq<byte>)
    requires At(src, ip, a + b)
    ensures At(src, ip, a) && At(src, ip + |a|, b)
  {
    assert forall k :: 0 <= k < |a| ==> a[k] == (a + b)[k];
    assert forall k :: 0 <= k < |b| ==> b[k] == (a + b)[|a| + k];
  }

  lemma {:induction false} AtJoin(s: seq<byte>, ip: nat, a: seq<byte>, b: seq<byte>)
    requires At(s, ip, a) && At(s, ip + |a|, b)
    ensures At(s, ip, a + b)
  {
  }

  /** What stands somewhere stays there when other bytes change. */
  lemma {:induction false} AtUnchanged(s0: seq<byte>, s: seq<byte>, ip: nat, part: seq<byte>)
    requires At(s0, ip, part) && |s| == |s0|
    requires forall j :: ip <= j < ip + |part| ==> s[j] == s0[j]
    ensures At(s, ip, part)
  {
  }

  lemma {:induction false} ReadLengthBytes(src: seq<byte>, ip: nat, n: nat, acc: nat)
    requires At(src, ip, LengthBytes(n))
    ensures ReadLength(src, ip, acc) == Some(Field(acc + n, ip + |LengthBytes(n)|))
    decreases n
  {
    assert src[ip + 0] == LengthBytes(n)[0];
    if n >= 255 {
      AtSplit(src, ip, [255], LengthBytes(n - 255));
      ReadLengthBytes(src, ip + 1, n - 255, acc + 255);
    }
  }

  /** A token and what follows it. */
  lemma {:induction false} TokenAt(src: seq<byte>, ip: nat, hi: nat, lo: nat, rest: seq<byte>)
    requires hi <= 15 && lo <= 15 && At(src, ip, [hi * 16 + lo] + rest)
    ensures ip < |src| && src[ip] == hi * 16 + lo && src[ip] / 16 == hi && At(src, ip + 1, rest)
  {
    AtSplit(src, ip, [hi * 16 + lo], rest);
    assert src[ip + 0] == [hi * 16 + lo][0];
  }

  lemma {:induction false} LiteralRunOf(src: seq<byte>, ip: nat, n: nat, code: nat)
    requires At(src, ip, Head(n, code))
    ensures ip < |src| && src[ip] == Nibble(n) * 16 + Nibble(code)
    ensures LiteralRun(src, ip) == Some(Field(n, ip + |Head(n, code)|))
  {
    var hi, lo := Nibble(n), Nibble(code);
    TokenAt(src, ip, hi, lo, Extension(n));
    hide At, ReadLength;
    if n >= 15 {
      ReadLengthBytes(src, ip + 1, n - 15, 15);
    }
  }

  lemma {:induction false} OffsetOf(src: seq<byte>, mp: nat, offset: nat)
    requires offset <= MAX_DISTANCE && At(src, mp, OffsetBytes(offset))
    ensures OffsetAt(src, mp) == offset
  {
    assert src[mp + 0] == OffsetBytes(offset)[0] && src[mp + 1] == OffsetBytes(offset)[1];
  }

  lemma {:induction false} MatchRunOf(src: seq<byte>, ip: nat, mp: nat, hi: nat, n: nat)
    requires ip < |src| && mp + 2 <= |src|
    requires src[ip] == hi * 16 + Nibble(n)
    requires At(src, mp + 2, Extension(n))
    ensures MatchRun(src, ip, mp) == Some(Field(n + MINMATCH, mp + 2 + |Extension(n)|))
  {
    assert src[ip] % 16 == Nibble(n);
    if n >= 15 {
      ReadLengthBytes(src, mp + 2, n - 15, 15 + MINMATCH);
    }
  }

  /** Position of the literals, and of the offset, inside one encoded sequence. */
  function LiteralPos(q: Sequence): nat {
    1 + |Extension(|q.literals|)|
  }

  function OffsetPos(q: Sequence): nat {
    LiteralPos(q) + |q.literals|
  }

  /** The fields at `ip` are those of sequence `q`, whose encoding ends at `next`. */
  ghost predicate Reads(src: seq<byte>, ip: nat, q: Sequence, next: nat) {
    var lp, mp := ip + LiteralPos(q), ip + OffsetPos(q);
    && mp + 2 <= |src|
    && LiteralRun(src, ip) == Some(Field(|q.literals|, lp))
    && src[lp..mp] == q.literals
    && OffsetAt(src, mp) == q.offset
    && MatchRun(src, ip, mp) == Some(Field(q.matchLen, next))
  }

  /** Reading the fields of an encoded sequence gives the sequence back. */
  lemma {:induction false} SequenceFields(src: seq<byte>, ip: nat, q: Sequence)
    requires q.offset <= MAX_DISTANCE && q.matchLen >= MINMATCH
    requires At(src, ip, EncodeSequence(q))
    ensures Reads(src, ip, q, ip + |EncodeSequence(q)|)
  {
    hide LiteralRun, MatchRun, Extension;
    var n, m, mp := |q.literals|, q.matchLen - MINMATCH, ip + OffsetPos(q);
    AtSplit(src, ip, Head(n, m) + q.literals, OffsetBytes(q.offset) + Extension(m));
    AtSplit(src, ip, Head(n, m), q.literals);
    AtSplit(src, mp, OffsetBytes(q.offset), Extension(m));
    LiteralRunOf(src, ip, n, m);
    OffsetOf(src, mp, q.offset);
    MatchRunOf(src, ip, mp, Nibble(n), m);
  }

  lemma {:induction false} StepOfSequence(src: seq<byte>, ip: nat, h: seq<byte>, q: Sequence, next: nat)
    requires Reads(src, ip, q, next) && q.offset <= |h| + |q.literals|
    ensures SequenceStep(src, ip, h) == More(next, CopyMatch(h + q.literals, q.offset, q.matchLen))
  {
    hide LiteralRun, MatchRun, OffsetAt, CopyMatch;
  }

  lemma {:induction false} WellEndedSequence(src: seq<byte>, ip: nat, q: Sequence, next: nat, after: bool)
    requires Reads(src, ip, q, next) && next <= |src|
    requires q.matchLen + Extent(src, next) >= MFLIMIT && WellEnded(src, next, true)
    ensures Extent(src, ip) == |q.literals| + q.matchLen + Extent(src, next)
    ensures WellEnded(src, ip, after)
  {
  }

  lemma {:induction false} DecodeLast(src: seq<byte>, ip: nat, h: seq<byte>, lit: seq<byte>)
    requires At(src, ip, EncodeLast(lit)) && |src| == ip + |EncodeLast(lit)|
    ensures Decode(src, ip, h) == Some(h + lit)
    ensures LiteralRun(src, ip) == Some(Field(|lit|, |src| - |lit|))
  {
    hide Head, LiteralRun;
    AtSplit(src, ip, Head(|lit|, 0), lit);
    LiteralRunOf(src, ip, |lit|, 0);
    assert src[|src| - |lit|..] == lit;
    assert SequenceStep(src, ip, h) == Last(h + lit);
  }

  lemma {:induction false} DecodeSequences(src: seq<byte>, h: seq<byte>, qs: seq<Sequence>)
    requires Formed(qs) && Expand(h, qs).Some?
    requires At(src, 0, EncodeAll(qs))
    ensures Decode(src, 0, h) == Decode(src, |EncodeAll(qs)|, Expand(h, qs).value)
    decreases |qs|
  {
    hide At, Reads, EncodeSequence, SequenceStep;
    if qs != [] {
      var q := qs[|qs| - 1];
      AtSplit(src, 0, EncodeAll(qs[..|qs| - 1]), EncodeSequence(q));
      DecodeSequences(src, h, qs[..|qs| - 1]);
      var ip := |EncodeAll(qs[..|qs| - 1])|;
      SequenceFields(src, ip, q);
      StepOfSequence(src, ip, Expand(h, qs[..|qs| - 1]).value, q, |EncodeAll(qs)|);
    }
  }

  /** The reference decoder undoes the encoder. */
  lemma {:induction false} FormatRoundTrip(src: seq<byte>, h: seq<byte>, qs: seq<Sequence>, lit: seq<byte>,
                                           out: seq<byte>)
    requires Formed(qs) && Expand(h, qs) == Some(out)
    requires At(src, 0, EncodeAll(qs)) && At(src, |EncodeAll(qs)|, EncodeLast(lit))
    requires |src| == |EncodeAll(qs)| + |EncodeLast(lit)|
    ensures Decode(src, 0, h) == Some(out + lit)
  {
    DecodeSequences(src, h, qs);
    DecodeLast(src, |EncodeAll(qs)|, out, lit);
  }

  // ---------------------------------------------------------------- encoded blocks end well

  ghost function Position(qs: seq<Sequence>, i: nat): nat
    requires Formed(qs) && i <= |qs|
  {
    |EncodeAll(qs[..i])|
  }

  /** Bytes that a block still produces before its `i`-th sequence. */
  ghost function Ahead(qs: seq<Sequence>, lit: seq<byte>, i: nat): nat
    requires i <= |qs|
    decreases |qs| - i
  {
    if i == |qs| then |lit| else |qs[i].literals| + qs[i].matchLen + Ahead(qs, lit, i + 1)
  }

  ghost predicate Restricted(qs: seq<Sequence>, lit: seq<byte>) {
    && (qs != [] ==> |lit| >= LASTLITERALS)
    && forall i :: 0 <= i < |qs| ==> qs[i].matchLen + Ahead(qs, lit, i + 1) >= MFLIMIT
  }

  /** The encoded block holds its `i`-th sequence where one expects it. */
  lemma {:induction false} ReadsSequence(src: seq<byte>, qs: seq<Sequence>, i: nat)
    requires Formed(qs) && i < |qs| && At(src, 0, EncodeAll(qs))
    ensures Reads(src, Position(qs, i), qs[i], Position(qs, i + 1))
    decreases |qs|
  {
    hide At, Reads, EncodeSequence;
    var k := |qs| - 1;
    AtSplit(src, 0, EncodeAll(qs[..k]), EncodeSequence(qs[k]));
    if i < k {
      assert qs[..k][..i] == qs[..i] && qs[..k][..i + 1] == qs[..i + 1];
      ReadsSequence(src, qs[..k], i);
    } else {
      assert qs[..i + 1] == qs;
      SequenceFields(src, |EncodeAll(qs[..k])|, qs[k]);
    }
  }

  lemma {:induction false} WellEndedLast(src: seq<byte>, ip: nat, lit: seq<byte>, after: bool)
    requires At(src, ip, EncodeLast(lit)) && |src| == ip + |EncodeLast(lit)|
    requires after ==> |lit| >= LASTLITERALS
    ensures Extent(src, ip) == |lit|
    ensures WellEnded(src, ip, after)
  {
    DecodeLast(src, ip, [], lit);
  }

  /** The restrictions on the list of sequences become those on the encoded block. */
  lemma {:induction false} WellEndedFrom(src: seq<byte>, qs: seq<Sequence>, lit: seq<byte>, i: nat)
    requires Formed(qs) && i <= |qs| && Restricted(qs, lit)
    requires At(src, 0, EncodeAll(qs)) && At(src, |EncodeAll(qs)|, EncodeLast(lit))
    requires |src| == |EncodeAll(qs)| + |EncodeLast(lit)|
    ensures Position(qs, i) <= |src|
    ensures Extent(src, Position(qs, i)) == Ahead(qs, lit, i)
    ensures WellEnded(src, Position(qs, i), i != 0)
    decreases |qs| - i
  {
    if i == |qs| {
      assert qs[..i] == qs;
      WellEndedLast(src, Position(qs, i), lit, i != 0);
    } else {
      WellEndedFrom(src, qs, lit, i + 1);
      ReadsSequence(src, qs, i);
      WellEndedSequence(src, Position(qs, i), qs[i], Position(qs, i + 1), i != 0);
    }
  }

  // ---------------------------------------------------------------- a block byte by byte

  /** 273 literals and five bytes from 258 back; 274 bytes from one back; one last literal. */
  function Sample(lits: seq<byte>, last: byte): seq<byte> {
    [0xF1, 255, 3] + lits + [0x02, 0x01, 0x0F, 0x01, 0x00, 255, 0, 0x10, last]
  }

  lemma {:induction false} SampleBytes(lits: seq<byte>, last: byte, src: seq<byte>)
    requires |lits| == 273 && src == Sample(lits, last)
    ensures |src| == 285 && src[0] == 0xF1 && src[1] == 255 && src[2] == 3 && src[3..276] == lits
    ensures src[276] == 2 && src[277] == 1 && src[278] == 0x0F && src[279] == 1 && src[280] == 0 && src[281] == 255
    ensures src[282] == 0 && src[283] == 0x10 && src[284..285] == [last]
  {
  }

  lemma {:induction false} SampleSteps(lits: seq<byte>, last: byte, src: seq<byte>, h: seq<byte>)
    requires |lits| == 273 && src == Sample(lits, last)
    ensures |src| == 285 && SequenceStep(src, 0, h) == More(278, CopyMatch(h + lits, 258, 5))
    ensures h != [] ==> SequenceStep(src, 278, h) == More(283, CopyMatch(h, 1, 274))
    ensures SequenceStep(src, 283, h) == Last(h + [last])
  {
    SampleBytes(lits, last, src);
    hide Sample, CopyMatch;
    assert ReadLength(src, 2, 270) == Some(Field(273, 3));
    assert ReadLength(src, 282, 274) == Some(Field(274, 283));
    assert src[279..279] == [] && h + [] == h;
  }

  /** What such a block means: the halves of a token, the length bytes, and the order of the offset bytes. */
  lemma {:induction false} SampleDecodes(lits: seq<byte>, last: byte, h: seq<byte>)
    requires |lits| == 273
    ensures Decode(Sample(lits, last), 0, h) == Some(CopyMatch(CopyMatch(h + lits, 258, 5), 1, 274) + [last])
  {
    hide Sample, CopyMatch, SequenceStep;
    var src := Sample(lits, last);
    SampleSteps(lits, last, src, h);
    var h1 := CopyMatch(h + lits, 258, 5);
    SampleSteps(lits, last, src, h1);
    var h2 := CopyMatch(h1, 1, 274);
    SampleSteps(lits, last, src, h2);
    assert Decode(src, 283, h2) == Some(h2 + [last]);
    assert Decode(src, 278, h1) == Decode(src, 283, h2);
  }
}
