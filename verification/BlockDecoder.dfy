/**
 The fast block decoder. Output memory is one array; the bytes before `dst` may hold a prefix
 dictionary, and `dict` is an external one. Pointers are indices, so every load and store is
 checked to stay inside its buffer.
 */
module BlockDecoder {
  import opened Bytes
  import opened BlockFormat
  import opened BlockCopy
  import opened BlockAcceptance

  datatype DictMode = NoDict | WithPrefix64k | UsingExtDict

  // ---------------------------------------------------------------- length fields

  /** Literal length of the token at `t`. A length that runs into the end of the input is cut short. */
  method LiteralLength(src: seq<byte>, t: nat) returns (ok: bool, length: nat, ip: nat)
    requires t < |src|
    ensures t < ip <= |src|
    ensures ok ==> LiteralRun(src, t) == Some(Field(length, ip)) || ip + length > |src|
    ensures !ok || LiteralRun(src, t) != Some(Field(length, ip)) ==>
              LiteralRun(src, t).None? || LiteralRun(src, t).value.next + LiteralRun(src, t).value.len > |src|
  {
    ip := t + 1;
    length := src[t] / 16;
    ok := true;
    if length == 15 {
      if ip >= |src| - 15 {
        return false, length, ip;
      }
      var s := src[ip];
      ip, length := ip + 1, length + s;
      while ip < |src| - 15 && s == 255
        invariant t + 1 < ip <= |src| && length >= 15 && (s == 255 ==> length >= 255 + 15)
        invariant s == 255 ==> LiteralRun(src, t) == ReadLength(src, ip, length)
        invariant s != 255 ==> LiteralRun(src, t) == Some(Field(length, ip))
        decreases |src| - ip
      {
        s := src[ip];
        ip, length := ip + 1, length + s;
      }
    }
  }

  /** Match length of the token at `t`, whose offset is at `mp`. */
  method MatchLength(src: seq<byte>, t: nat, mp: nat) returns (ok: bool, length: nat, ip: nat)
    requires t < |src| && mp + 2 < |src|
    ensures ok ==> MatchRun(src, t, mp) == Some(Field(length, ip)) && ip < |src|
    ensures ok <==>
              && MatchRun(src, t, mp).Some?
              && (src[t] % 16 == 15 ==> MatchRun(src, t, mp).value.next + LASTLITERALS <= |src|)
  {
    ip := mp + 2;
    length := src[t] % 16;
    ok := true;
    if length == 15 {
      var s := 255;
      while s == 255
        invariant mp + 2 <= ip < |src| && (s != 255 ==> ip + LASTLITERALS <= |src|)
        invariant s == 255 ==> MatchRun(src, t, mp) == ReadLength(src, ip, length + MINMATCH)
        invariant s != 255 ==> MatchRun(src, t, mp) == Some(Field(length + MINMATCH, ip))
        decreases |src| - ip, s
      {
        s := src[ip];
        ip := ip + 1;
        if ip > |src| - LASTLITERALS {
          ReadLengthAdvances(src, ip - 1, length + MINMATCH);
          return false, length, ip;
        }
        length := length + s;
      }
    }
    length := length + MINMATCH;
  }

  lemma {:induction false} ReadLengthAdvances(src: seq<byte>, ip: nat, acc: nat)
    requires ip <= |src|
    ensures ReadLength(src, ip, acc).Some? ==> ReadLength(src, ip, acc).value.next >= ip + 1
  {
  }

  // ---------------------------------------------------------------- history

  /** Everything a match can refer to: the external dictionary, then memory from `low` to `op`. */
  ghost function History(dict: seq<byte>, s: seq<byte>, low: nat, op: nat): (h: seq<byte>)
    requires low <= op <= |s|
    ensures |h| == |dict| + (op - low)
  {
    dict + s[low..op]
  }

  /** The byte at address `x` of that history; addresses below `low` lie in the dictionary. */
  ghost function ByteAt(dict: seq<byte>, s: seq<byte>, low: nat, x: int): byte
    requires low - |dict| <= x < |s|
  {
    if x >= low then s[x] else dict[|dict| - (low - x)]
  }

  /** On [op, end) every byte repeats the one `offset` before it in the history. */
  ghost predicate Repeated(dict: seq<byte>, s: seq<byte>, low: nat, op: nat, end: nat, offset: nat) {
    && low <= op <= end <= |s| && offset <= |dict| + (op - low)
    && forall j :: op <= j < end ==> s[j] == if offset == 0 then 0 else ByteAt(dict, s, low, j - offset)
  }

  lemma {:induction false} HistoryAt(dict: seq<byte>, s: seq<byte>, low: nat, op: nat, x: int)
    requires low <= op <= |s| && low - |dict| <= x < op
    ensures History(dict, s, low, op)[x - low + |dict|] == ByteAt(dict, s, low, x)
  {
  }

  lemma {:induction false} HistoryAfterMatch(dict: seq<byte>, s0: seq<byte>, s: seq<byte>, low: nat, op: nat, end: nat,
                                             offset: nat)
    requires Repeated(dict, s, low, op, end, offset)
    requires |s0| == |s| && s[..op] == s0[..op]
    ensures History(dict, s, low, end) == CopyMatch(History(dict, s0, low, op), offset, end - op)
  {
    var h, r := History(dict, s0, low, op), History(dict, s, low, end);
    assert s[low..op] == s[..op][low..] == s0[low..op];
    assert r[..|h|] == h;
    forall k | |h| <= k < |r|
      ensures r[k] == if offset == 0 then 0 else r[k - offset]
    {
      var j := k - |dict| + low;
      HistoryAt(dict, s, low, end, j);
      if offset != 0 {
        HistoryAt(dict, s, low, end, j - offset);
      }
    }
    PeriodicIsCopyMatch(h, offset, r);
  }

  lemma {:induction false} HistoryAfterLiterals(dict: seq<byte>, s0: seq<byte>, s: seq<byte>, low: nat, op: nat,
                                                lit: seq<byte>)
    requires low <= op && op + |lit| <= |s| == |s0| && s[..op] == s0[..op]
    requires s[op..op + |lit|] == lit
    ensures History(dict, s, low, op + |lit|) == History(dict, s0, low, op) + lit
  {
    assert s[low..op] == s[..op][low..] == s0[low..op];
    assert s[low..op + |lit|] == s[low..op] + lit;
  }

  // ---------------------------------------------------------------- matches

  /** Match that starts in the external dictionary, possibly running on into the output. */
  method CopyExtMatch(mem: array<byte>, low: nat, op: nat, offset: nat, length: nat, oend: nat, dict: seq<byte>)
    returns (ok: bool)
    requires low <= op <= oend <= mem.Length && op - low < offset <= |dict| + (op - low)
    modifies mem
    ensures ok == (op + length + 5 <= oend)
    ensures ok ==> Repeated(dict, mem[..], low, op, op + length, offset)
    ensures forall j :: 0 <= j < mem.Length && !(op <= j < oend) ==> mem[j] == old(mem[j])
  {
    if op + length > oend - LASTLITERALS {
      return false;
    }
    ok := true;
    var back := low - (op - offset);
    if length <= back {
      CopyIn(mem, op, dict, |dict| - back, length);
    } else {
      CopyIn(mem, op, dict, |dict| - back, back);
      CopyRest(mem, low, op + back, length - back);
    }
  }

  /** Second half of such a match: it starts at `low`, and may overlap what it writes. */
  method CopyRest(mem: array<byte>, low: nat, op: nat, rest: nat)
    requires low < op && op + rest <= mem.Length
    modifies mem
    ensures forall j :: op <= j < op + rest ==> mem[j] == mem[j - (op - low)]
    ensures forall j :: 0 <= j < mem.Length && !(op <= j < op + rest) ==> mem[j] == old(mem[j])
  {
    if rest > op - low {
      var i := 0;
      while i < rest
        invariant i <= rest
        invariant forall j :: op <= j < op + i ==> mem[j] == mem[j - (op - low)]
        invariant forall j :: 0 <= j < mem.Length && !(op <= j < op + i) ==> mem[j] == old(mem[j])
      {
        mem[op + i] := mem[low + i];
        i := i + 1;
      }
    } else {
      MemCopy(mem, op, low, rest);
    }
  }

  /** The shortcut for short matches that do not overlap: 18 bytes, whatever the length. */
  method CopyEighteen(mem: array<byte>, op: nat, offset: nat)
    requires 8 <= offset <= op && op + 18 <= mem.Length
    modifies mem
    ensures Repeats(mem[..], op, op + 18, offset)
    ensures forall j :: 0 <= j < mem.Length && !(op <= j < op + 18) ==> mem[j] == old(mem[j])
  {
    var m := op - offset;
    MemCopy(mem, op, m, 8);
    MemCopy(mem, op + 8, m + 8, 8);
    MemCopy(mem, op + 16, m + 16, 2);
  }

  lemma {:induction false} RepeatsIsRepeated(dict: seq<byte>, s: seq<byte>, low: nat, op: nat, hi: nat, end: nat,
                                             offset: nat)
    requires low <= op <= end <= hi && offset <= op - low && Repeats(s, op, hi, offset)
    ensures Repeated(dict, s, low, op, end, offset)
  {
  }

  /** Where the history of a block lies, for each way of passing a dictionary. */
  ghost predicate Placed(mode: DictMode, lowPrefix: int, low: nat, dst: nat, dict: seq<byte>) {
    && low <= dst
    && match mode
       case NoDict => lowPrefix == low && dict == []
       case WithPrefix64k => lowPrefix == dst - 65536 && low <= dst - 65535 && dict == []
       case UsingExtDict => lowPrefix == low
  }

  /** One match: its length, then its bytes. */
  method MatchStage(src: seq<byte>, mem: array<byte>, t: nat, mp: nat, op: nat, oend: nat, fast: bool, mode: DictMode,
                    lowPrefix: int, ghost low: nat, ghost dst: nat, dict: seq<byte>)
    returns (ok: bool, ip: nat, end: nat)
    requires t < mp && mp + 2 < |src|
    requires Placed(mode, lowPrefix, low, dst, dict) && dst <= op && op + 12 <= oend <= mem.Length
    requires fast ==> op + 18 <= oend
    modifies mem
    ensures forall j :: 0 <= j < mem.Length && !(op <= j < oend) ==> mem[j] == old(mem[j])
    ensures ok ==> op <= end <= oend && ip < |src|
    ensures ok ==> MatchRun(src, t, mp) == Some(Field(end - op, ip))
    ensures ok ==> Repeated(dict, mem[..], low, op, end, OffsetAt(src, mp))
    ensures ok <==> TakesMatch(src, t, mp, fast, oend - op, op - lowPrefix, |dict|)
  {
    var offset := OffsetAt(src, mp);
    var matchPtr := op - offset;
    if fast && src[t] % 16 != 15 && offset >= 8 && (mode == WithPrefix64k || matchPtr >= lowPrefix) {
      CopyEighteen(mem, op, offset);
      ok, ip, end := true, mp + 2, op + src[t] % 16 + MINMATCH;
      RepeatsIsRepeated(dict, mem[..], low, op, op + 18, end, offset);
      return;
    }
    if |dict| < 65536 && matchPtr + |dict| < lowPrefix {
      return false, 0, 0;
    }
    mem[op], mem[op + 1], mem[op + 2], mem[op + 3] := 0, 0, 0, 0;
    var length;
    ok, length, ip := MatchLength(src, t, mp);
    end := op + length;
    if !ok {
      return;
    }
    if mode == UsingExtDict && matchPtr < lowPrefix {
      ok := CopyExtMatch(mem, lowPrefix, op, offset, length, oend, dict);
    } else {
      ok := CopyMatchBytes(mem, op, offset, length, oend);
      if ok {
        RepeatsIsRepeated(dict, mem[..], low, op, end, end, offset);
      }
    }
  }

  // ---------------------------------------------------------------- literals

  datatype Status = Error | Finished | AtMatch

  /** The literals of the token at `t` have been copied to `op`, and end at `mp` in the input. */
  ghost predicate LiteralsCopied(src: seq<byte>, t: nat, mp: nat, s0: seq<byte>, s: seq<byte>, op: nat, end: nat) {
    && t < |src| && LiteralRun(src, t).Some?
    && var l := LiteralRun(src, t).value;
       && mp == l.next + l.len <= |src|
       && op + l.len == end <= |s| == |s0|
       && s[..op] == s0[..op]
       && s[op..end] == src[l.next..mp]
  }

  lemma {:induction false} SliceCopied(s: seq<byte>, op: nat, end: nat, src: seq<byte>, ip: nat, mp: nat)
    requires op <= end <= |s| && ip <= mp <= |src| && end - op == mp - ip
    requires forall j :: op <= j < end ==> s[j] == src[ip + (j - op)]
    ensures s[op..end] == src[ip..mp]
  {
    assert forall k :: 0 <= k < end - op ==> s[op..end][k] == s[op + k] == src[ip + k];
  }

  /** Literals outside the shortcut: careful near the end of either buffer, in groups of eight elsewhere. */
  method LongLiterals(src: seq<byte>, mem: array<byte>, t: nat, op: nat, oend: int)
    returns (status: Status, mp: nat, end: nat)
    requires t < |src| && op <= mem.Length && oend <= mem.Length && !Quick(src, t, oend - op)
    modifies mem
    ensures forall j :: 0 <= j < mem.Length && !(op <= j < oend) ==> mem[j] == old(mem[j])
    ensures status != Error ==> end <= oend && LiteralsCopied(src, t, mp, old(mem[..]), mem[..], op, end)
    ensures status == Finished ==> mp == |src|
    ensures status == AtMatch ==> t < mp && mp + 2 < |src| && end + 12 <= oend
    ensures status == AtMatch <==> GoesOn(src, t, oend - op)
    ensures status == Finished <==> !GoesOn(src, t, oend - op) && Ends(src, t, oend - op)
  {
    var ok, length, ip := LiteralLength(src, t);
    mp, end, status := ip + length, op + length, Error;
    if !ok {
      return;
    }
    if end > oend - MFLIMIT || mp > |src| - (2 + 1 + LASTLITERALS) {
      if mp == |src| && end <= oend {
        CopyIn(mem, op, src, ip, length);
        SliceCopied(mem[..], op, end, src, ip, mp);
        status := Finished;
      }
    } else {
      WildCopyIn(mem, op, src, ip, end);
      SliceCopied(mem[..], op, end, src, ip, mp);
      status := AtMatch;
    }
  }

  /** The literals of one sequence: up to fourteen at once where there is room, else the long way. */
  method LiteralStage(src: seq<byte>, mem: array<byte>, t: nat, op: nat, oend: int)
    returns (status: Status, fast: bool, mp: nat, end: nat)
    requires t < |src| && op <= mem.Length && oend <= mem.Length
    modifies mem
    ensures forall j :: 0 <= j < mem.Length && !(op <= j < oend) ==> mem[j] == old(mem[j])
    ensures status != Error ==> end <= oend && LiteralsCopied(src, t, mp, old(mem[..]), mem[..], op, end)
    ensures status == Finished ==> mp == |src|
    ensures status == AtMatch ==> t < mp && mp + 2 < |src| && end + 12 <= oend && (fast ==> end + 18 <= oend)
    ensures fast == Quick(src, t, oend - op)
    ensures status == AtMatch <==> GoesOn(src, t, oend - op)
    ensures status == Finished <==> !GoesOn(src, t, oend - op) && Ends(src, t, oend - op)
  {
    var length := src[t] / 16;
    if length != 15 && t + 1 < |src| - 16 && op <= oend - 32 {
      CopyIn(mem, op, src, t + 1, 16);
      status, fast, mp, end := AtMatch, true, t + 1 + length, op + length;
      SliceCopied(mem[..], op, end, src, t + 1, mp);
    } else {
      status, mp, end := LongLiterals(src, mem, t, op, oend);
      fast := false;
    }
  }

  // ---------------------------------------------------------------- the decoder

  lemma {:induction false} StepTaken(src: seq<byte>, t: nat, mp: nat, ip: nat, dict: seq<byte>, low: nat, s0: seq<byte>,
                                     s1: seq<byte>, s2: seq<byte>, op: nat, mid: nat, end: nat)
    requires low <= op && LiteralsCopied(src, t, mp, s0, s1, op, mid) && mp + 2 <= |src|
    requires |s2| == |s1| && s2[..mid] == s1[..mid]
    requires mid <= end && MatchRun(src, t, mp) == Some(Field(end - mid, ip))
    requires Repeated(dict, s2, low, mid, end, OffsetAt(src, mp))
    ensures Decode(src, t, History(dict, s0, low, op)) == Decode(src, ip, History(dict, s2, low, end))
  {
    var l := LiteralRun(src, t).value;
    HistoryAfterLiterals(dict, s0, s1, low, op, src[l.next..mp]);
    HistoryAfterMatch(dict, s1, s2, low, mid, end, OffsetAt(src, mp));
    assert SequenceStep(src, t, History(dict, s0, low, op)) == More(ip, History(dict, s2, low, end));
  }

  lemma {:induction false} StepFinished(src: seq<byte>, t: nat, dict: seq<byte>, low: nat, s0: seq<byte>, s1: seq<byte>,
                                        op: nat, end: nat)
    requires low <= op && LiteralsCopied(src, t, |src|, s0, s1, op, end)
    ensures Decode(src, t, History(dict, s0, low, op)) == Some(History(dict, s1, low, end))
  {
    var l := LiteralRun(src, t).value;
    HistoryAfterLiterals(dict, s0, s1, low, op, src[l.next..]);
    assert SequenceStep(src, t, History(dict, s0, low, op)) == Last(History(dict, s1, low, end));
  }

  /**
   What the decoder returns, as a claim about the reference decoder and the final memory. The history is `h`, of which
   `reach` bytes were looked for directly before the output and `ext` elsewhere.
   */
  ghost predicate Decoded(src: seq<byte>, h: seq<byte>, s: seq<byte>, dst: nat, cap: int, reach: nat, ext: nat,
                          n: int) {
    && (n >= 0 <==> AcceptsBlock(src, cap, reach, ext))
    && (n >= 0 ==> n <= cap && dst + n <= |s| && Decode(src, 0, h) == Some(h + s[dst..dst + n]))
  }

  /**
   LZ4_decompress_generic, decoding a full block and ending on the input size. A non-negative
   result is the size of the decoded data, which is what the reference decoder produces; which blocks
   get one is decided by their fields, the room and the reach of the prefix.
   */
  method DecompressGeneric(src: seq<byte>, mem: array<byte>, dst: nat, cap: int, mode: DictMode, lowPrefix: int,
                           ghost low: nat, dict: seq<byte>)
    returns (n: int)
    requires dst <= mem.Length && dst + cap <= mem.Length && Placed(mode, lowPrefix, low, dst, dict)
    modifies mem
    ensures forall j :: 0 <= j < mem.Length && !(dst <= j < dst + cap) ==> mem[j] == old(mem[j])
    ensures Decoded(src, History(dict, old(mem[..]), low, dst), mem[..], dst, cap, dst - lowPrefix, |dict|, n)
  {
    ghost var h := History(dict, mem[..], low, dst);
    if cap == 0 {
      n := if |src| == 1 && src[0] == 0 then 0 else -1;
      EmptyOutput(src, h, mem[..], dst, dst - lowPrefix, |dict|);
      return;
    }
    if |src| == 0 {
      return -1;
    }
    n := DecompressLoop(src, mem, dst, cap, mode, lowPrefix, low, dict);
  }

  /** With no room at all, only the block that decodes to nothing is accepted. */
  lemma {:induction false} EmptyOutput(src: seq<byte>, h: seq<byte>, s: seq<byte>, dst: nat, reach: nat, ext: nat)
    requires dst <= |s|
    ensures Decoded(src, h, s, dst, 0, reach, ext, if |src| == 1 && src[0] == 0 then 0 else -1)
  {
    if |src| == 1 && src[0] == 0 {
      assert SequenceStep(src, 0, h) == Last(h + []);
      assert h + [] == h && s[dst..dst] == [];
    }
  }

  /** One turn of the main loop, from the token at `t` to the next one. */
  method OneSequence(src: seq<byte>, mem: array<byte>, t: nat, op: nat, oend: int, mode: DictMode, lowPrefix: int,
                     ghost low: nat, ghost dst: nat, dict: seq<byte>)
    returns (status: Status, next: nat, end: nat)
    requires t < |src| && dst <= op <= mem.Length && oend <= mem.Length && Placed(mode, lowPrefix, low, dst, dict)
    modifies mem
    ensures forall j :: 0 <= j < mem.Length && !(op <= j < oend) ==> mem[j] == old(mem[j])
    ensures status != Error ==> op <= end <= oend
    ensures status == AtMatch ==> t < next < |src|
    ensures status == AtMatch ==>
              Decode(src, t, History(dict, old(mem[..]), low, op)) ==
                  Decode(src, next, History(dict, mem[..], low, end))
    ensures status == Finished ==>
              Decode(src, t, History(dict, old(mem[..]), low, op)) == Some(History(dict, mem[..], low, end))
    ensures Accepts(src, t, oend - op, op - lowPrefix, |dict|) <==>
              status == Finished || (status == AtMatch && Accepts(src, next, oend - end, end - lowPrefix, |dict|))
  {
    hide Decode, TakesMatch, GoesOn, Ends, Quick;
    ghost var s0 := mem[..];
    var fast, mp;
    status, fast, mp, end := LiteralStage(src, mem, t, op, oend);
    next := t;
    if status == Finished {
      StepFinished(src, t, dict, low, s0, mem[..], op, end);
    } else if status == AtMatch {
      ghost var s1, mid := mem[..], end;
      var ok;
      ok, next, end := MatchStage(src, mem, t, mp, end, oend, fast, mode, lowPrefix, low, dst, dict);
      if ok {
        StepTaken(src, t, mp, next, dict, low, s0, s1, mem[..], op, mid, end);
      } else {
        status := Error;
      }
    }
  }

  method DecompressLoop(src: seq<byte>, mem: array<byte>, dst: nat, cap: int, mode: DictMode, lowPrefix: int,
                        ghost low: nat, dict: seq<byte>)
    returns (n: int)
    requires dst <= mem.Length && dst + cap <= mem.Length && Placed(mode, lowPrefix, low, dst, dict) && src != []
             && cap != 0
    modifies mem
    ensures forall j :: 0 <= j < mem.Length && !(dst <= j < dst + cap) ==> mem[j] == old(mem[j])
    ensures Decoded(src, History(dict, old(mem[..]), low, dst), mem[..], dst, cap, dst - lowPrefix, |dict|, n)
  {
    hide History, Accepts, Decode;
    var ip, op, oend := 0, dst, dst + cap;
    ghost var h := History(dict, mem[..], low, dst);
    while true
      invariant ip < |src| && dst <= op <= mem.Length && (op <= oend || op == dst)
      invariant forall j :: 0 <= j < mem.Length && !(dst <= j < oend) ==> mem[j] == old(mem[j])
      invariant Decode(src, 0, h) == Decode(src, ip, History(dict, mem[..], low, op))
      invariant Accepts(src, 0, cap, dst - lowPrefix, |dict|) <==> Accepts(src, ip, oend - op, op - lowPrefix, |dict|)
      decreases |src| - ip
    {
      var status, next, end := OneSequence(src, mem, ip, op, oend, mode, lowPrefix, low, dst, dict);
      if status == Error {
        return -ip - 1;
      }
      if status == Finished {
        FinalHistory(dict, h, old(mem[..]), mem[..], low, dst, end);
        return end - dst;
      }
      ip, op := next, end;
    }
  }

  lemma {:induction false} FinalHistory(dict: seq<byte>, h: seq<byte>, s0: seq<byte>, s: seq<byte>, low: nat, dst: nat,
                                        end: nat)
    requires low <= dst <= end <= |s| == |s0| && h == History(dict, s0, low, dst)
    requires forall j :: 0 <= j < dst ==> s[j] == s0[j]
    ensures History(dict, s, low, end) == h + s[dst..end]
  {
    assert s[low..dst] == s0[low..dst];
    assert s[low..end] == s[low..dst] + s[dst..end];
  }

  // ---------------------------------------------------------------- entry points

  /** LZ4_decompress_safe: no dictionary. */
  method DecompressSafe(src: seq<byte>, mem: array<byte>, dst: nat, cap: int) returns (n: int)
    requires dst <= mem.Length && dst + cap <= mem.Length
    modifies mem
    ensures forall j :: 0 <= j < mem.Length && !(dst <= j < dst + cap) ==> mem[j] == old(mem[j])
    ensures Decoded(src, [], mem[..], dst, cap, 0, 0, n)
  {
    n := DecompressGeneric(src, mem, dst, cap, NoDict, dst, dst, []);
  }

  /** How much of a dictionary is looked for directly before the output; the rest is looked for where it lies. */
  function Reach(dst: nat, dictStart: nat, dictSize: nat): nat {
    if dictSize == 0 || dictStart + dictSize != dst then 0 else if dictSize >= 65535 then 65536 else dictSize
  }

  function Elsewhere(dst: nat, dictStart: nat, dictSize: nat): nat {
    if dictStart + dictSize == dst then 0 else dictSize
  }

  /**
   LZ4_decompress_safe_usingDict: the dictionary is the `dictSize` bytes at `dictStart`. Wherever it lies,
   a block that is accepted decodes as if the dictionary stood directly before the output.
   */
  method DecompressUsingDict(src: seq<byte>, mem: array<byte>, dst: nat, cap: nat, dictStart: nat, dictSize: nat)
    returns (n: int)
    requires dst + cap <= mem.Length && dictStart + dictSize <= mem.Length
    requires dictSize != 0 ==> dictStart + dictSize <= dst || dst + cap <= dictStart
    modifies mem
    ensures forall j :: 0 <= j < mem.Length && !(dst <= j < dst + cap) ==> mem[j] == old(mem[j])
    ensures Decoded(src, old(mem[dictStart..dictStart + dictSize]), mem[..], dst, cap,
                    Reach(dst, dictStart, dictSize), Elsewhere(dst, dictStart, dictSize), n)
  {
    hide Decoded;
    ghost var dict := mem[dictStart..dictStart + dictSize];
    assert mem[..][dictStart..dictStart + dictSize] == dict;
    if dictSize == 0 {
      n := DecompressSafe(src, mem, dst, cap);
    } else if dictStart + dictSize == dst {
      assert History([], mem[..], dictStart, dst) == dict;
      if dictSize >= 65535 {
        n := DecompressGeneric(src, mem, dst, cap, WithPrefix64k, dst - 65536, dictStart, []);
      } else {
        n := DecompressGeneric(src, mem, dst, cap, NoDict, dst - dictSize, dictStart, []);
      }
    } else {
      assert History(dict, mem[..], dst, dst) == dict;
      n := DecompressGeneric(src, mem, dst, cap, UsingExtDict, dst, dst, mem[dictStart..dictStart + dictSize]);
    }
  }

  /**
   Two decodings of one block with the same history and room. What they decode to is the same. The one with less history
   directly before its output refuses a block that the other accepts exactly if it has a late match.
   */
  lemma {:induction false} PlacementDoesNotMatter(src: seq<byte>, h: seq<byte>, cap: int, s1: seq<byte>, d1: nat,
                                                  reach1: nat, ext1: nat, n1: int, s2: seq<byte>, d2: nat, reach2: nat,
                                                  ext2: nat, n2: int)
    requires Moved(reach1, ext1, reach2, ext2)
    requires Decoded(src, h, s1, d1, cap, reach1, ext1, n1) && Decoded(src, h, s2, d2, cap, reach2, ext2, n2)
    ensures n1 >= 0 && n2 >= 0 ==> n1 == n2 && s1[d1..d1 + n1] == s2[d2..d2 + n2]
    ensures n2 >= 0 <==> n1 >= 0 && !(cap != 0 && Late(src, 0, cap, reach2))
  {
    PlacementDecidesBlock(src, cap, reach1, ext1, reach2, ext2);
    if n1 >= 0 && n2 >= 0 {
      var out := Decode(src, 0, h).value;
      assert out[|h|..] == s1[d1..d1 + n1];
      assert out[|h|..] == s2[d2..d2 + n2];
    }
  }

  /** No such match, wherever the history lies, in a block that decodes, ends well and fits. */
  lemma {:induction false} NeverRefused(src: seq<byte>, h: seq<byte>, s: seq<byte>, dst: nat, cap: nat, reach: nat,
                                        ext: nat, n: int)
    requires Decoded(src, h, s, dst, cap, reach, ext, n) && (|h| <= reach + ext || reach + ext >= MAX_DISTANCE)
             && cap > 0
    requires Decode(src, 0, h).Some? && WellEnded(src, 0, false) && |Decode(src, 0, h).value| <= |h| + cap
    ensures n >= 0
  {
    DecodeLength(src, 0, h);
    WellEndedAccepted(src, 0, false, h, cap, reach, ext);
  }

  // ---------------------------------------------------------------- a block with a late match

  /** Fourteen literals, a match of eighteen bytes twenty back, and nothing behind it. */
  function LateBlock(lits: seq<byte>): (src: seq<byte>)
    requires |lits| == 14
    ensures |src| == 18 && src[0] == 0xEE && src[15] == 20 && src[16] == 0 && src[17] == 0
  {
    [0xEE] + lits + [20, 0, 0]
  }

  lemma {:induction false} LateBlockFields(lits: seq<byte>)
    requires |lits| == 14
    ensures var src := LateBlock(lits);
            && LiteralRun(src, 0) == Some(Field(14, 1)) && OffsetAt(src, 15) == 20
                && MatchRun(src, 0, 15) == Some(Field(18, 17))
            && LiteralRun(src, 17) == Some(Field(0, 18)) && Extent(src, 0) == 32
            && Accepts(src, 0, 32, 8, 0) && !Accepts(src, 0, 32, 0, 8) && Late(src, 0, 32, 0)
  {
    var src := LateBlock(lits);
    assert src[0] / 16 == 14 && src[0] % 16 == 14;
    assert Extent(src, 17) == 0;
    assert Accepts(src, 17, 0, 40, 0);
  }

  lemma {:induction false} SizeOf(src: seq<byte>, h: seq<byte>, s: seq<byte>, dst: nat, cap: nat, reach: nat, ext: nat,
                                  n: int)
    requires Decoded(src, h, s, dst, cap, reach, ext, n) && AcceptsBlock(src, cap, reach, ext)
    ensures n == Extent(src, 0)
  {
    DecodeLength(src, 0, h);
  }

  /**
   The same block with the same eight bytes of history: accepted if they stand before the output, refused if they do
   not.
   */
  method PlacementMatters(dict: seq<byte>, lits: seq<byte>) returns (before: int, elsewhere: int)
    requires |dict| == 8 && |lits| == 14
    ensures before == 32 && elsewhere < 0
  {
    var src := LateBlock(lits);
    LateBlockFields(lits);
    var mem := new byte[41](_ => 0);
    CopyIn(mem, 0, dict, 0, 8);
    assert mem[0..0 + 8] == dict;
    hide LateBlock, Accepts, Late, Extent, Decode;
    before := DecompressUsingDict(src, mem, 8, 32, 0, 8);
    SizeOf(src, dict, mem[..], 8, 32, 8, 0, before);
    elsewhere := DecompressUsingDict(src, mem, 9, 32, 0, 8);
  }
}
