/**
 Which blocks the fast decoder accepts, read off the fields of a block. Besides the block it depends on the room for
 output, and on where the history lies: `reach` bytes of it directly before the output, `ext` bytes elsewhere.
 */
module BlockAcceptance {
  import opened Bytes
  import opened BlockFormat

  /** The literals are few, and both buffers go on for long enough to copy without looking. */
  predicate Quick(src: seq<byte>, ip: nat, room: int)
    requires ip < |src|
  {
    src[ip] / 16 != 15 && ip + 17 < |src| && room >= 32
  }

  /** A match follows the literals of the token at `ip`. */
  predicate GoesOn(src: seq<byte>, ip: nat, room: int)
    requires ip < |src|
  {
    && LiteralRun(src, ip).Some?
    && var l := LiteralRun(src, ip).value;
       Quick(src, ip, room) || (l.len + MFLIMIT <= room && l.next + l.len + 3 + LASTLITERALS <= |src|)
  }

  /** The literals end the block. */
  predicate Ends(src: seq<byte>, ip: nat, room: int)
    requires ip < |src|
  {
    && LiteralRun(src, ip).Some?
    && var l := LiteralRun(src, ip).value; l.next + l.len == |src| && l.len <= room
  }

  /** The second half of the shortcut: a short match that does not overlap, all of it directly before the output. */
  predicate QuickMatch(src: seq<byte>, ip: nat, mp: nat, reach: nat)
    requires ip < |src| && mp + 2 <= |src|
  {
    src[ip] % 16 != 15 && 8 <= OffsetAt(src, mp) <= reach
  }

  /**
   Any other match: it must stay clear of the last five bytes of output, and a long length field of those of the input.
   */
  predicate CarefulMatch(src: seq<byte>, ip: nat, mp: nat, room: int, history: nat)
    requires ip < |src| && mp + 2 <= |src|
  {
    && OffsetAt(src, mp) <= history && MatchRun(src, ip, mp).Some?
    && var m := MatchRun(src, ip, mp).value;
       (src[ip] % 16 == 15 ==> m.next + LASTLITERALS <= |src|) && m.len + LASTLITERALS <= room
  }

  predicate TakesMatch(src: seq<byte>, ip: nat, mp: nat, quick: bool, room: int, reach: nat, ext: nat)
    requires ip < |src| && mp + 2 <= |src|
  {
    (quick && QuickMatch(src, ip, mp, reach)) || CarefulMatch(src, ip, mp, room, reach + ext)
  }

  /** The rest of a block, from the token at `ip` on, is accepted. */
  ghost predicate Accepts(src: seq<byte>, ip: nat, room: int, reach: nat, ext: nat)
    decreases |src| - ip
  {
    && ip < |src|
    && if GoesOn(src, ip, room) then
         var l := LiteralRun(src, ip).value;
         var mp := l.next + l.len;
         && TakesMatch(src, ip, mp, Quick(src, ip, room), room - l.len, reach + l.len, ext)
         && var m := MatchRun(src, ip, mp).value;
            Accepts(src, m.next, room - l.len - m.len, reach + l.len + m.len, ext)
       else Ends(src, ip, room)
  }

  /** A block is accepted. With no room at all only the empty block is, and with a negative amount none. */
  ghost predicate AcceptsBlock(src: seq<byte>, cap: int, reach: nat, ext: nat) {
    if cap == 0 then src == [0] else Accepts(src, 0, cap, reach, ext)
  }

  /** A capacity that has turned negative: not even the first literals fit. */
  lemma NothingFits(src: seq<byte>, cap: int, reach: nat, ext: nat)
    requires cap < 0
    ensures !AcceptsBlock(src, cap, reach, ext)
  {
  }

  // ---------------------------------------------------------------- where the history lies

  /** Two placements of one history, the second with less of it directly before the output. */
  ghost predicate Moved(reach: nat, ext: nat, reach2: nat, ext2: nat) {
    && reach2 <= reach
    && (reach + ext == reach2 + ext2 || (reach + ext >= MAX_DISTANCE && reach2 + ext2 >= MAX_DISTANCE))
  }

  /**
   A match that the shortcut takes when all history is directly before the output, but that starts before the `reach`
   bytes that are, and that ends in the last five bytes of the room.
   */
  ghost predicate Late(src: seq<byte>, ip: nat, room: int, reach: nat)
    decreases |src| - ip
  {
    && ip < |src| && GoesOn(src, ip, room)
    && var l := LiteralRun(src, ip).value;
       var mp := l.next + l.len;
       && MatchRun(src, ip, mp).Some?
       && var m := MatchRun(src, ip, mp).value;
          && l.len + m.len <= room
          && ((Quick(src, ip, room) && OffsetAt(src, mp) > reach + l.len && m.len + LASTLITERALS > room - l.len)
              || Late(src, m.next, room - l.len - m.len, reach + l.len + m.len))
  }

  /** The match that follows can be read and leaves no negative room. */
  predicate MatchFits(src: seq<byte>, ip: nat, room: int)
    requires ip < |src| && GoesOn(src, ip, room)
  {
    var l := LiteralRun(src, ip).value;
    && MatchRun(src, ip, l.next + l.len).Some?
    && l.len + MatchRun(src, ip, l.next + l.len).value.len <= room
  }

  lemma {:induction false} TakenFits(src: seq<byte>, ip: nat, room: int, reach: nat, ext: nat)
    requires ip < |src| && GoesOn(src, ip, room)
    ensures var l := LiteralRun(src, ip).value;
            TakesMatch(src, ip, l.next + l.len, Quick(src, ip, room), room - l.len, reach, ext) ==>
                  MatchFits(src, ip, room)
  {
  }

  /** One match: what moving the history changes. */
  lemma {:induction false} MatchMoved(src: seq<byte>, ip: nat, mp: nat, quick: bool, room: int, reach: nat, ext: nat,
                                      reach2: nat, ext2: nat)
    requires ip < |src| && mp + 2 <= |src| && Moved(reach, ext, reach2, ext2)
    ensures TakesMatch(src, ip, mp, quick, room, reach, ext) ==> MatchRun(src, ip, mp).Some?
    ensures TakesMatch(src, ip, mp, quick, room, reach2, ext2) <==>
              && TakesMatch(src, ip, mp, quick, room, reach, ext)
              && !(quick && OffsetAt(src, mp) > reach2 && MatchRun(src, ip, mp).value.len + LASTLITERALS > room)
  {
  }

  /** One sequence that goes on to a match, which is where the next token stands. */
  lemma {:induction false} AcceptsOn(src: seq<byte>, ip: nat, room: int, reach: nat, ext: nat, l: Field, m: Field)
    requires ip < |src| && GoesOn(src, ip, room) && LiteralRun(src, ip) == Some(l)
    requires MatchRun(src, ip, l.next + l.len) == Some(m) && l.len + m.len <= room
    ensures Accepts(src, ip, room, reach, ext) <==>
              && TakesMatch(src, ip, l.next + l.len, Quick(src, ip, room), room - l.len, reach + l.len, ext)
              && Accepts(src, m.next, room - l.len - m.len, reach + l.len + m.len, ext)
    ensures Late(src, ip, room, reach) <==>
              || (Quick(src, ip, room) && OffsetAt(src, l.next + l.len) > reach + l.len
                  && m.len + LASTLITERALS > room - l.len)
              || Late(src, m.next, room - l.len - m.len, reach + l.len + m.len)
  {
  }

  /** Moving history away from the output loses exactly the blocks with such a match. */
  lemma {:induction false} PlacementDecides(src: seq<byte>, ip: nat, room: int, reach: nat, ext: nat, reach2: nat,
                                            ext2: nat)
    requires Moved(reach, ext, reach2, ext2)
    ensures Accepts(src, ip, room, reach2, ext2) <==> Accepts(src, ip, room, reach, ext) && !Late(src, ip, room, reach2)
    decreases |src| - ip, 1
  {
    hide TakesMatch, Quick;
    if ip < |src| && GoesOn(src, ip, room) {
      var l := LiteralRun(src, ip).value;
      if MatchFits(src, ip, room) {
        PlacementDecidesOn(src, ip, room, reach, ext, reach2, ext2, l, MatchRun(src, ip, l.next + l.len).value);
      } else {
        TakenFits(src, ip, room, reach + l.len, ext);
        TakenFits(src, ip, room, reach2 + l.len, ext2);
      }
    }
  }

  lemma {:induction false} PlacementDecidesOn(src: seq<byte>, ip: nat, room: int, reach: nat, ext: nat, reach2: nat,
                                              ext2: nat, l: Field, m: Field)
    requires Moved(reach, ext, reach2, ext2) && ip < |src| && GoesOn(src, ip, room) && LiteralRun(src, ip) == Some(l)
    requires MatchRun(src, ip, l.next + l.len) == Some(m) && l.len + m.len <= room
    ensures Accepts(src, ip, room, reach2, ext2) <==> Accepts(src, ip, room, reach, ext) && !Late(src, ip, room, reach2)
    decreases |src| - ip, 0
  {
    hide TakesMatch, GoesOn, Quick, OffsetAt, MatchRun, LiteralRun;
    AcceptsOn(src, ip, room, reach, ext, l, m);
    AcceptsOn(src, ip, room, reach2, ext2, l, m);
    MatchMoved(src, ip, l.next + l.len, Quick(src, ip, room), room - l.len, reach + l.len, ext, reach2 + l.len, ext2);
    hide Accepts, Late;
    PlacementDecides(src, m.next, room - l.len - m.len, reach + l.len + m.len, ext, reach2 + l.len + m.len, ext2);
  }

  lemma {:induction false} PlacementDecidesBlock(src: seq<byte>, cap: int, reach: nat, ext: nat, reach2: nat, ext2: nat)
    requires Moved(reach, ext, reach2, ext2)
    ensures AcceptsBlock(src, cap, reach2, ext2) <==>
              AcceptsBlock(src, cap, reach, ext) && !(cap != 0 && Late(src, 0, cap, reach2))
  {
    PlacementDecides(src, 0, cap, reach, ext, reach2, ext2);
  }

  /** History elsewhere beyond the largest offset makes no difference. */
  lemma {:induction false} EnoughElsewhere(src: seq<byte>, cap: int, reach: nat, ext: nat, ext2: nat)
    requires ext >= MAX_DISTANCE && ext2 >= MAX_DISTANCE
    ensures AcceptsBlock(src, cap, reach, ext) == AcceptsBlock(src, cap, reach, ext2)
  {
    PlacementDecidesBlock(src, cap, reach, ext, reach, ext2);
    PlacementDecidesBlock(src, cap, reach, ext2, reach, ext);
  }

  /** How much of a history of `size` bytes is looked for directly before the output, and how much elsewhere. */
  function ReachOf(adjoins: bool, size: nat): nat {
    if !adjoins then 0 else if size >= 65535 then 65536 else size
  }

  function ElsewhereOf(adjoins: bool, size: nat): nat {
    if adjoins then 0 else size
  }

  /** A block is accepted with a history of `size` bytes, which adjoins the output or does not. */
  ghost predicate AcceptedAt(body: seq<byte>, cap: int, adjoins: bool, size: nat) {
    AcceptsBlock(body, cap, ReachOf(adjoins, size), ElsewhereOf(adjoins, size))
  }

  /** A block that is accepted away from its history is accepted behind it too. */
  lemma {:induction false} NearIsBest(src: seq<byte>, cap: int, adjoins: bool, size: nat)
    ensures AcceptedAt(src, cap, adjoins, size) ==> AcceptedAt(src, cap, true, size)
    ensures AcceptedAt(src, cap, false, size) ==> AcceptedAt(src, cap, adjoins, size)
  {
    PlacementDecidesBlock(src, cap, ReachOf(true, size), 0, 0, size);
  }

  /** What output, room and offset say about a late match that is accepted somewhere. */
  lemma {:induction false} LateIsClose(src: seq<byte>, ip: nat, room: int, reach: nat, reach2: nat, ext2: nat)
    requires Late(src, ip, room, reach) && Accepts(src, ip, room, reach2, ext2)
    ensures room + reach < MAX_DISTANCE + 18 + LASTLITERALS
    decreases |src| - ip
  {
    hide LiteralRun;
    var l := LiteralRun(src, ip).value;
    var m := MatchRun(src, ip, l.next + l.len).value;
    if Quick(src, ip, room) && OffsetAt(src, l.next + l.len) > reach + l.len && m.len + LASTLITERALS > room - l.len {
      assert m.len <= 18;
    } else {
      hide MatchRun, TakesMatch, Quick, OffsetAt;
      LateIsClose(src, m.next, room - l.len - m.len, reach + l.len + m.len, reach2 + l.len + m.len, ext2);
    }
  }

  /**
   With room for more than the largest offset reaches back, or with no history, the place of the history makes no
   difference.
   */
  lemma {:induction false} PlaceIndifferent(src: seq<byte>, cap: int, size: nat)
    requires size == 0 || cap >= MAX_DISTANCE + 18 + LASTLITERALS
    ensures AcceptedAt(src, cap, true, size) == AcceptedAt(src, cap, false, size)
  {
    PlacementDecidesBlock(src, cap, ReachOf(true, size), 0, 0, size);
    if size > 0 && Late(src, 0, cap, 0) && AcceptedAt(src, cap, true, size) {
      LateIsClose(src, 0, cap, 0, ReachOf(true, size), 0);
    }
  }

  /** A long match, and then one that reaches back before the block and ends where 64 KB of room do. */
  const LONG := Sequence([], 1, KB64 - 32)
  const LATE := Sequence([0, 0, 0, 0, 0, 0, 0, 0, 0, 0, 0, 0, 0, 0], MAX_DISTANCE, 18)

  ghost function LateBlock64(): seq<byte> {
    EncodeSequence(LONG) + EncodeSequence(LATE) + [0]
  }

  /** For linked blocks of 64 KB the place does make a difference. */
  lemma {:induction false} PlaceDecides64(size: nat)
    requires size >= 17
    ensures AcceptedAt(LateBlock64(), KB64, true, size) && !AcceptedAt(LateBlock64(), KB64, false, size)
  {
    hide EncodeSequence, Accepts, Late, AcceptedAt, Reads;
    LateSize();
    var src, i := LateBlock64(), |EncodeSequence(LONG)|;
    ThreeParts(EncodeSequence(LONG), EncodeSequence(LATE));
    SequenceFields(src, 0, LONG);
    SequenceFields(src, i, LATE);
    LateTail(src, i, ReachOf(true, size) + LONG.matchLen);
    LateTail(src, i, LONG.matchLen);
    LongHead(src, i, size);
  }

  lemma LateSize()
    ensures |EncodeSequence(LATE)| == 17
  {
  }

  lemma {:induction false} ThreeParts(a: seq<byte>, b: seq<byte>)
    ensures At(a + b + [0], 0, a) && At(a + b + [0], |a|, b) && (a + b + [0])[|a| + |b|] == 0
  {
  }

  lemma {:induction false} LateTail(src: seq<byte>, i: nat, reach: nat)
    requires Reads(src, i, LATE, i + 17) && |src| == i + 18 && src[i + 17] == 0
    ensures Accepts(src, i, 32, reach, 0) <==> reach + 14 >= MAX_DISTANCE
    ensures Late(src, i, 32, reach) <==> reach + 14 < MAX_DISTANCE
  {
    assert Accepts(src, i + 17, 0, reach + 32, 0);
  }

  lemma {:induction false} LongHead(src: seq<byte>, i: nat, size: nat)
    requires Reads(src, 0, LONG, i) && |src| == i + 18 && size >= 17
    requires Accepts(src, i, 32, ReachOf(true, size) + LONG.matchLen, 0) && Late(src, i, 32, LONG.matchLen)
    ensures AcceptedAt(src, KB64, true, size) && !AcceptedAt(src, KB64, false, size)
  {
    var l, m := Field(0, 1), Field(LONG.matchLen, i);
    AcceptsOn(src, 0, KB64, ReachOf(true, size), 0, l, m);
    hide Accepts, Late;
    PlacementDecidesBlock(src, KB64, ReachOf(true, size), 0, 0, size);
  }

  // ---------------------------------------------------------------- blocks that end well

  /** Such blocks stay clear of the ends of both buffers. */
  lemma {:induction false} EndsWell(src: seq<byte>, ip: nat, afterMatch: bool, room: int)
    requires ip < |src| && WellEnded(src, ip, afterMatch) && Extent(src, ip) <= room
    ensures var l := LiteralRun(src, ip).value;
            var mp := l.next + l.len;
            if mp == |src| then l.len <= room
            else
              && mp + 8 <= |src| && l.len + MFLIMIT <= room && MatchRun(src, ip, mp).Some?
              && var m := MatchRun(src, ip, mp).value;
                 && m.next + LASTLITERALS < |src| && l.len + m.len + LASTLITERALS <= room
                 && WellEnded(src, m.next, true) && Extent(src, m.next) <= room - l.len - m.len
  {
    var l := LiteralRun(src, ip).value;
    var mp := l.next + l.len;
    if mp < |src| {
      WellEndedTail(src, MatchRun(src, ip, mp).value.next);
    }
  }

  /** A sequence of a block that decodes: its match starts inside the history, and the rest decodes. */
  lemma {:induction false} DecodesOn(src: seq<byte>, ip: nat, h: seq<byte>, l: Field, m: Field)
    requires ip < |src| && Decode(src, ip, h).Some? && LiteralRun(src, ip) == Some(l)
    requires l.next + l.len + 2 <= |src| && MatchRun(src, ip, l.next + l.len) == Some(m)
    ensures var h1 := h + src[l.next..l.next + l.len];
            OffsetAt(src, l.next + l.len) <= |h1|
                && Decode(src, m.next, CopyMatch(h1, OffsetAt(src, l.next + l.len), m.len)).Some?
  {
    hide LiteralRun, MatchRun, OffsetAt, CopyMatch;
    var mp, h1 := l.next + l.len, h + src[l.next..l.next + l.len];
    assert SequenceStep(src, ip, h) == MatchStep(src, ip, mp, h1);
  }

  /** One sequence of such a block. */
  lemma {:induction false} WellEndedStep(src: seq<byte>, ip: nat, afterMatch: bool, h: seq<byte>, room: int,
                                         history: nat, l: Field, m: Field)
    requires ip < |src| && Decode(src, ip, h).Some? && WellEnded(src, ip, afterMatch) && Extent(src, ip) <= room
    requires |h| <= history || history >= MAX_DISTANCE
    requires LiteralRun(src, ip) == Some(l) && l.next + l.len < |src| && MatchRun(src, ip, l.next + l.len) == Some(m)
    ensures GoesOn(src, ip, room) && CarefulMatch(src, ip, l.next + l.len, room - l.len, history + l.len)
    ensures var h1 := h + src[l.next..l.next + l.len];
            OffsetAt(src, l.next + l.len) <= |h1|
                && Decode(src, m.next, CopyMatch(h1, OffsetAt(src, l.next + l.len), m.len)).Some?
  {
    hide WellEnded, Extent, LiteralRun, MatchRun, OffsetAt, CopyMatch, Decode;
    EndsWell(src, ip, afterMatch, room);
    DecodesOn(src, ip, h, l, m);
  }

  /** A block that decodes, ends well and fits is accepted wherever its history lies. */
  lemma {:induction false} WellEndedAccepted(src: seq<byte>, ip: nat, afterMatch: bool, h: seq<byte>, room: int,
                                             reach: nat, ext: nat)
    requires ip <= |src| && Decode(src, ip, h).Some? && WellEnded(src, ip, afterMatch) && Extent(src, ip) <= room
    requires |h| <= reach + ext || reach + ext >= MAX_DISTANCE
    ensures Accepts(src, ip, room, reach, ext)
    decreases |src| - ip, 1
  {
    EndsWell(src, ip, afterMatch, room);
    var l := LiteralRun(src, ip).value;
    if l.next + l.len < |src| {
      WellEndedOn(src, ip, afterMatch, h, room, reach, ext, l, MatchRun(src, ip, l.next + l.len).value);
    }
  }

  lemma {:induction false} WellEndedOn(src: seq<byte>, ip: nat, afterMatch: bool, h: seq<byte>, room: int, reach: nat,
                                       ext: nat, l: Field, m: Field)
    requires ip < |src| && Decode(src, ip, h).Some? && WellEnded(src, ip, afterMatch) && Extent(src, ip) <= room
    requires |h| <= reach + ext || reach + ext >= MAX_DISTANCE
    requires LiteralRun(src, ip) == Some(l) && l.next + l.len < |src| && MatchRun(src, ip, l.next + l.len) == Some(m)
    ensures Accepts(src, ip, room, reach, ext)
    decreases |src| - ip, 0
  {
    hide Accepts, Decode, CarefulMatch, QuickMatch, WellEnded, Extent, LiteralRun, MatchRun, GoesOn, Quick, OffsetAt;
    EndsWell(src, ip, afterMatch, room);
    WellEndedStep(src, ip, afterMatch, h, room, reach + ext, l, m);
    AcceptsOn(src, ip, room, reach, ext, l, m);
    var h1 := h + src[l.next..l.next + l.len];
    WellEndedAccepted(src, m.next, true, CopyMatch(h1, OffsetAt(src, l.next + l.len), m.len),
                      room - l.len - m.len, reach + l.len + m.len, ext);
  }
}
