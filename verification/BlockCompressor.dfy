/**
 LZ4_compress_generic for one block with no dictionary: hash-table search with acceleration,
 match extension in both directions, and the state that successive blocks may share.
 */
module BlockCompressor {
  import opened Bytes
  import opened BlockFormat
  import opened BlockCopy
  import opened BlockEncoder

  // ---------------------------------------------------------------- hash table

  /** What stays fixed while one block is compressed. */
  datatype Setup = Setup(tableType: TableType, startIndex: nat, dictSmall: bool)

  /** Number of input bytes the hash looks at. */
  function HashWidth(tt: TableType): nat {
    if tt == ByU32 then 8 else 4
  }

  function HashAt(hash: seq<byte> -> nat, tt: TableType, src: seq<byte>, p: nat): nat
    requires p + 8 <= |src|
  {
    hash(src[p..p + HashWidth(tt)])
  }

  ghost predicate HashInto(hash: seq<byte> -> nat, size: nat) {
    forall w :: hash(w) < size
  }

  /** Table entries are 32 or 16 bits wide. */
  function Stored(tt: TableType, index: nat): nat {
    if tt == ByU32 then index % TWO32 else index % 65536
  }

  /** Indices of the block fit the table, and adding the largest distance does not overflow. */
  ghost predicate IndexRange(c: Setup, n: nat) {
    if c.tableType == ByU32 then c.startIndex + n + 65536 <= TWO32 else c.startIndex + n < LIMIT_64K
  }

  /** An entry left behind by an earlier block, which the search must skip. */
  ghost predicate Stale(c: Setup, e: nat) {
    e < c.startIndex && (c.dictSmall || (c.tableType == ByU32 && e + MAX_DISTANCE < c.startIndex))
  }

  /** Every entry is stale or a position of the current block before `p`. */
  ghost predicate TableOk(t: seq<nat>, c: Setup, p: nat) {
    forall h :: 0 <= h < |t| ==> Stale(c, t[h]) || c.startIndex <= t[h] < c.startIndex + p
  }

  /** The tests a candidate index has to pass before its bytes are compared. */
  predicate Acceptable(c: Setup, matchIndex: nat, current: nat) {
    && !(c.dictSmall && matchIndex < c.startIndex)
    && (c.tableType == ByU16 || matchIndex + MAX_DISTANCE >= current)
  }

  lemma {:induction false} AcceptedIsFresh(t: seq<nat>, c: Setup, p: nat, h: nat, ip: nat, n: nat)
    requires TableOk(t, c, p) && h < |t| && Acceptable(c, t[h], c.startIndex + ip)
    requires IndexRange(c, n) && ip + 11 <= n && p <= ip + 1
    ensures c.startIndex <= t[h] < c.startIndex + p
    ensures c.startIndex + ip - t[h] <= MAX_DISTANCE
  {
  }

  // ---------------------------------------------------------------- search

  /** The step counter starts at `acceleration << 6`, computed in 32 bits. */
  function FirstSearchNb(acceleration: nat): nat {
    acceleration * 64 % TWO32
  }

  /** Accelerations whose step does not vanish in that shift. */
  predicate Advancing(acceleration: nat) {
    acceleration % 0x400_0000 != 0
  }

  lemma {:induction false} FirstSearchNbIs(acceleration: nat)
    ensures FirstSearchNb(acceleration) == 64 * (acceleration % 0x400_0000)
  {
    var q, y := acceleration / 0x400_0000, acceleration % 0x400_0000;
    assert acceleration * 64 == q * TWO32 + 64 * y;
  }

  /** Before the step counter could wrap around, the search has left every possible input. */
  lemma {:induction false} NoWrap(y: nat, k: nat)
    requires 1 <= y < 0x400_0000 && k >= 1 && 1 + (k - 1) * y <= MAX_INPUT_SIZE
    ensures 64 * y + k < TWO32
  {
    var x := 0x400_0000 - y;
    if k >= 64 * x {
      MulMonotonic(k - 1, 64 * x - 1, y);
      LeastProduct(x, y);
    }
  }

  lemma LeastProduct(x: nat, y: nat)
    requires x >= 1 && y >= 1
    ensures (64 * x - 1) * y >= 64 * (x + y - 1) - y
  {
    assert (64 * x - 1) * y == 64 * (x * y) - y;
    assert x * y == (x - 1) * (y - 1) + x + y - 1;
    assert (x - 1) * (y - 1) >= 0;
  }

  lemma MulMonotonic(a: int, b: int, y: nat)
    requires a >= b
    ensures a * y >= b * y
  {
  }

  /** The candidate at `q` starts with the four bytes at `p`. */
  predicate SameFour(src: seq<byte>, p: nat, q: nat)
    requires p + 4 <= |src| && q + 4 <= |src|
  {
    src[q..q + 4] == src[p..p + 4]
  }

  /** The state of the search that its termination and its progress depend on. */
  ghost predicate Progress(a: nat, ip0: nat, forwardIp: nat, step: nat, nb: nat, k: nat) {
    var y := a % 0x400_0000;
    Advancing(a) ==>
      && nb == 64 * y + k && nb < TWO32
      && (k == 0 ==> forwardIp == ip0 && step == 1)
      && (k >= 1 ==> step >= y && forwardIp >= ip0 + 1 + (k - 1) * y)
      && step >= 1
  }

  lemma {:induction false} ProgressStep(a: nat, ip0: nat, forwardIp: nat, step: nat, nb: nat, k: nat, n: nat)
    requires Progress(a, ip0, forwardIp, step, nb, k)
    requires forwardIp + step <= n <= MAX_INPUT_SIZE
    ensures Progress(a, ip0, forwardIp + step, nb / 64, (nb + 1) % TWO32, k + 1)
  {
    if Advancing(a) {
      var y := a % 0x400_0000;
      assert k * y == (k - 1) * y + y;
      assert forwardIp + step >= ip0 + 1 + k * y;
      NoWrap(y, k + 1);
    }
  }

  /** With a vanishing step the search stays at its second position, where it soon finds itself. */
  ghost predicate Stuck(ip0: nat, forwardIp: nat, step: nat, nb: nat, k: nat) {
    && nb == k <= 2
    && (if k == 0 then forwardIp == ip0 && step == 1 else forwardIp == ip0 + 1 && step == 0)
  }

  /** Table entry `e` is a position of this block, no further than 65535 bytes back, with the four bytes of `ip`. */
  predicate Repeat(src: seq<byte>, c: Setup, e: nat, ip: nat)
    requires ip + 4 <= |src|
  {
    && c.startIndex <= e <= c.startIndex + ip && c.startIndex + ip - e <= MAX_DISTANCE
    && SameFour(src, ip, e - c.startIndex)
  }

  /** The tests are exact: of the entries of a good table they pass those of this block that are within reach. */
  lemma {:induction false} AcceptedExactly(t: seq<nat>, c: Setup, p: nat, h: nat, ip: nat, n: nat)
    requires TableOk(t, c, p) && h < |t| && IndexRange(c, n) && ip + 11 <= n && p <= ip + 1
    ensures Acceptable(c, t[h], c.startIndex + ip) <==>
              c.startIndex <= t[h] <= c.startIndex + ip && c.startIndex + ip - t[h] <= MAX_DISTANCE
  {
  }

  /** One probe: look up the candidate for `ip`, enter `ip` in its place, and test the candidate. */
  method Probe(src: seq<byte>, table: array<nat>, c: Setup, h: nat, ip: nat, ghost p: nat) returns (hit: bool, m: nat)
    requires h < table.Length && IndexRange(c, |src|) && ip + 11 <= |src| && p <= ip + 1
    requires TableOk(table[..], c, p)
    modifies table
    ensures table[..] == old(table[..])[h := c.startIndex + ip] && TableOk(table[..], c, ip + 1)
    ensures hit ==> m < p && m <= ip && ip - m <= MAX_DISTANCE && SameFour(src, ip, m)
    ensures hit <==> Repeat(src, c, old(table[h]), ip)
    ensures hit ==> m == old(table[h]) - c.startIndex
  {
    ghost var t := table[..];
    var current: nat := c.startIndex + ip;
    var matchIndex := table[h];
    table[h] := Stored(c.tableType, current);
    assert table[..] == t[h := current];
    hit, m := false, 0;
    AcceptedExactly(t, c, p, h, ip, |src|);
    if Acceptable(c, matchIndex, current) {
      AcceptedIsFresh(t, c, p, h, ip, |src|);
      m := matchIndex - c.startIndex;
      hit := SameFour(src, ip, m);
    }
  }

  // ---------------------------------------------------------------- which positions are probed

  /** The step counter before probe `k`, and the step that leads on from it. */
  function StepAt(acceleration: nat, k: nat): nat {
    if k == 0 then 1 else (FirstSearchNb(acceleration) + (k - 1)) % TWO32 / 64
  }

  /** Probe number `k` of a search from `ip0`. */
  function Position(acceleration: nat, ip0: nat, k: nat): (p: nat)
    ensures p >= ip0
  {
    if k == 0 then ip0 else Position(acceleration, ip0, k - 1) + StepAt(acceleration, k - 1)
  }

  /** The table after the positions of the first `k` probes have been entered. */
  ghost function Entered(t: seq<nat>, src: seq<byte>, hash: seq<byte> -> nat, c: Setup, ps: seq<nat>): (r: seq<nat>)
    requires HashInto(hash, |t|) && forall i :: 0 <= i < |ps| ==> ps[i] + 8 <= |src|
    ensures |r| == |t|
  {
    if ps == [] then t
    else
      var n := |ps| - 1;
      Entered(t, src, hash, c, ps[..n])[HashAt(hash, c.tableType, src, ps[n]) := c.startIndex + ps[n]]
  }

  /** What probe number `i` finds in the table. */
  ghost predicate HitAt(t: seq<nat>, src: seq<byte>, hash: seq<byte> -> nat, c: Setup, ps: seq<nat>, i: nat)
    requires HashInto(hash, |t|) && i < |ps| && forall j :: 0 <= j < |ps| ==> ps[j] + 8 <= |src|
  {
    Repeat(src, c, Entered(t, src, hash, c, ps[..i])[HashAt(hash, c.tableType, src, ps[i])], ps[i])
  }

  /** The probes `ps` of a search, none of which was a hit, and the table they leave. */
  ghost predicate Missed(t0: seq<nat>, t: seq<nat>, src: seq<byte>, hash: seq<byte> -> nat, c: Setup, acceleration: nat,
                         ip0: nat, ps: seq<nat>)
    requires HashInto(hash, |t0|)
  {
    && (forall i :: 0 <= i < |ps| ==> ps[i] == Position(acceleration, ip0, i) && ps[i] + 11 <= |src|)
    && t == Entered(t0, src, hash, c, ps)
    && forall i :: 0 <= i < |ps| ==> !HitAt(t0, src, hash, c, ps, i)
  }

  /** After these probes the one at `ip` was a hit on `m`. */
  ghost predicate Ended(t0: seq<nat>, t: seq<nat>, t1: seq<nat>, src: seq<byte>, hash: seq<byte> -> nat, c: Setup,
                        acceleration: nat, ip0: nat, ps: seq<nat>, ip: nat, m: nat)
    requires HashInto(hash, |t0|) && ip + 11 <= |src|
  {
    && |t| == |t0| && Missed(t0, t, src, hash, c, acceleration, ip0, ps)
    && var h := HashAt(hash, c.tableType, src, ip);
       Repeat(src, c, t[h], ip) && t[h] == c.startIndex + m && t1 == t[h := c.startIndex + ip]
  }

  lemma NoProbes(t: seq<nat>, src: seq<byte>, hash: seq<byte> -> nat, c: Setup, acceleration: nat, ip0: nat)
    requires HashInto(hash, |t|)
    ensures Missed(t, t, src, hash, c, acceleration, ip0, [])
  {
  }

  lemma {:induction false} OneMoreProbe(t0: seq<nat>, t: seq<nat>, src: seq<byte>, hash: seq<byte> -> nat, c: Setup,
                                        acceleration: nat, ip0: nat, ps: seq<nat>, ip: nat)
    requires HashInto(hash, |t0|) && Missed(t0, t, src, hash, c, acceleration, ip0, ps)
    requires ip == Position(acceleration, ip0, |ps|) && ip + 11 <= |src| && |t| == |t0|
    requires !Repeat(src, c, t[HashAt(hash, c.tableType, src, ip)], ip)
    ensures Missed(t0, t[HashAt(hash, c.tableType, src, ip) := c.startIndex + ip], src, hash, c, acceleration, ip0,
                   ps + [ip])
  {
    var qs := ps + [ip];
    hide HashInto, Repeat, Position;
    assert qs[..|ps|] == ps;
    forall i | 0 <= i < |qs|
      ensures !HitAt(t0, src, hash, c, qs, i)
    {
      if i < |ps| {
        assert qs[..i] == ps[..i];
        assert !HitAt(t0, src, hash, c, ps, i);
      }
    }
  }

  /** Of the positions entered, the table holds the last one with each hash. */
  lemma {:induction false} LastEntered(t: seq<nat>, src: seq<byte>, hash: seq<byte> -> nat, c: Setup, ps: seq<nat>,
                                       i: nat)
    requires HashInto(hash, |t|) && i < |ps| && forall j :: 0 <= j < |ps| ==> ps[j] + 8 <= |src|
    requires forall j :: i < j < |ps| ==>
               HashAt(hash, c.tableType, src, ps[j]) != HashAt(hash, c.tableType, src, ps[i])
    ensures Entered(t, src, hash, c, ps)[HashAt(hash, c.tableType, src, ps[i])] == c.startIndex + ps[i]
    decreases |ps|
  {
    if i < |ps| - 1 {
      LastEntered(t, src, hash, c, ps[..|ps| - 1], i);
    }
  }

  /** A search that misses has seen no repetition: successive probes of equal hash differ or are far apart. */
  lemma {:induction false} MissedMeansNew(t0: seq<nat>, t: seq<nat>, src: seq<byte>, hash: seq<byte> -> nat, c: Setup,
                                          acceleration: nat, ip0: nat, ps: seq<nat>, i: nat, k: nat)
    requires HashInto(hash, |t0|) && Missed(t0, t, src, hash, c, acceleration, ip0, ps) && i < k < |ps|
    requires HashAt(hash, c.tableType, src, ps[i]) == HashAt(hash, c.tableType, src, ps[k])
    requires forall j :: i < j < k ==> HashAt(hash, c.tableType, src, ps[j]) != HashAt(hash, c.tableType, src, ps[i])
    ensures ps[i] <= ps[k] && ps[k] - ps[i] <= MAX_DISTANCE ==> !SameFour(src, ps[k], ps[i])
  {
    LastEntered(t0, src, hash, c, ps[..k], i);
    assert !HitAt(t0, src, hash, c, ps, k);
  }

  /**
   The main search. A hit is a position whose four bytes occur at an earlier position of the same
   block, no further than 65535 bytes back; "earlier" is only certain while the step advances.
   */
  method FindMatch(src: seq<byte>, table: array<nat>, hash: seq<byte> -> nat, c: Setup, acceleration: nat, ip0: nat)
    returns (found: bool, ip: nat, m: nat, ghost ps: seq<nat>)
    requires HashInto(hash, table.Length) && IndexRange(c, |src|) && |src| <= MAX_INPUT_SIZE
    requires 1 <= ip0 && ip0 + 11 <= |src| && TableOk(table[..], c, ip0)
    modifies table
    ensures found ==> ip == Position(acceleration, ip0, |ps|) && ip + 11 <= |src|
    ensures found ==> exists t :: Ended(old(table[..]), t, table[..], src, hash, c, acceleration, ip0, ps, ip, m)
    ensures !found ==> Missed(old(table[..]), table[..], src, hash, c, acceleration, ip0, ps)
    ensures !found ==> Position(acceleration, ip0, |ps| + 1) + 11 > |src|
    ensures found ==> ip0 <= ip && ip + 11 <= |src| && m <= ip && ip - m <= MAX_DISTANCE && SameFour(src, ip, m)
    ensures found && Advancing(acceleration) ==> m < ip && ip + MFLIMIT <= |src|
    ensures found ==> TableOk(table[..], c, ip + 1)
    ensures TableOk(table[..], c, |src|)
    ensures !Advancing(acceleration) && ip0 + MFLIMIT <= |src| ==> found
  {
    hide Missed, Entered, Ended, Position, StepAt, Repeat, TableOk, Progress, IndexRange, FirstSearchNb, Advancing,
         HashAt, HashInto;
    var forwardIp, step: nat, nb: nat := ip0, 1, FirstSearchNb(acceleration);
    var forwardH := HashAt(hash, c.tableType, src, forwardIp);
    ghost var k, t0, adv := 0, table[..], Advancing(acceleration);
    HashFits(hash, table.Length, c.tableType, src, forwardIp);
    SearchStarts(acceleration, ip0);
    NoProbes(t0, src, hash, c, acceleration, ip0);
    TableGrows(t0, c, ip0, ip0 + 1);
    TableGrows(t0, c, ip0, |src|);
    ip, m, ps := ip0, 0, [];
    while true
      invariant ip0 <= forwardIp && forwardIp + 11 <= |src| && k == |ps|
      invariant forwardH == HashAt(hash, c.tableType, src, forwardIp) < table.Length
      invariant TableOk(table[..], c, if adv then forwardIp else forwardIp + 1)
      invariant TableOk(table[..], c, |src|)
      invariant Scheduled(acceleration, ip0, forwardIp, step, nb, k)
      invariant Missed(t0, table[..], src, hash, c, acceleration, ip0, ps)
      invariant !adv && k == 2 ==> table[forwardH] == c.startIndex + forwardIp
      decreases |src| - forwardIp, if table[forwardH] == c.startIndex + forwardIp then 0 else 1
    {
      ip := forwardIp;
      forwardIp := forwardIp + step;
      SearchGoesOn(acceleration, ip0, ip, step, nb, k, |src|);
      if forwardIp > |src| - 11 {
        return false, ip, 0, ps;
      }
      ghost var t := table[..];
      SelfRepeat(src, c, ip);
      step, nb, k := nb / 64, (nb + 1) % TWO32, k + 1;
      var h := forwardH;
      forwardH := HashAt(hash, c.tableType, src, forwardIp);
      HashFits(hash, table.Length, c.tableType, src, forwardIp);
      found, m := Probe(src, table, c, h, ip, if adv then ip else ip + 1);
      TableGrows(table[..], c, ip + 1, |src|);
      if found {
        HitEnds(t0, t, table[..], src, hash, c, acceleration, ip0, ps, ip, m);
        return;
      }
      OneMoreProbe(t0, t, src, hash, c, acceleration, ip0, ps, ip);
      ps := ps + [ip];
      TableGrows(table[..], c, ip + 1, if adv then forwardIp else forwardIp + 1);
    }
  }

  lemma HashFits(hash: seq<byte> -> nat, size: nat, tt: TableType, src: seq<byte>, p: nat)
    requires HashInto(hash, size) && p + 8 <= |src|
    ensures HashAt(hash, tt, src, p) < size
  {
  }

  lemma HitEnds(t0: seq<nat>, t: seq<nat>, t1: seq<nat>, src: seq<byte>, hash: seq<byte> -> nat, c: Setup,
                acceleration: nat, ip0: nat, ps: seq<nat>, ip: nat, m: nat)
    requires HashInto(hash, |t0|) && ip + 11 <= |src| && |t| == |t0|
    requires Missed(t0, t, src, hash, c, acceleration, ip0, ps)
    requires var h := HashAt(hash, c.tableType, src, ip);
             Repeat(src, c, t[h], ip) && m == t[h] - c.startIndex && t1 == t[h := c.startIndex + ip]
    ensures exists t :: Ended(t0, t, t1, src, hash, c, acceleration, ip0, ps, ip, m)
  {
    hide Missed, Repeat;
    assert Ended(t0, t, t1, src, hash, c, acceleration, ip0, ps, ip, m);
  }

  lemma SelfRepeat(src: seq<byte>, c: Setup, ip: nat)
    requires ip + 4 <= |src|
    ensures Repeat(src, c, c.startIndex + ip, ip)
  {
  }

  /** The search keeps to the schedule, and advances unless its step vanishes. */
  ghost predicate Scheduled(acceleration: nat, ip0: nat, forwardIp: nat, step: nat, nb: nat, k: nat) {
    && forwardIp == Position(acceleration, ip0, k) && step == StepAt(acceleration, k)
    && nb == (FirstSearchNb(acceleration) + k) % TWO32
    && Progress(acceleration, ip0, forwardIp, step, nb, k)
    && (!Advancing(acceleration) ==> Stuck(ip0, forwardIp, step, nb, k))
  }

  lemma {:induction false} SearchStarts(acceleration: nat, ip0: nat)
    ensures Scheduled(acceleration, ip0, ip0, 1, FirstSearchNb(acceleration), 0)
  {
    FirstSearchNbIs(acceleration);
  }

  lemma {:induction false} SearchGoesOn(acceleration: nat, ip0: nat, ip: nat, step: nat, nb: nat, k: nat, n: nat)
    requires Scheduled(acceleration, ip0, ip, step, nb, k) && n <= MAX_INPUT_SIZE
    ensures ip == Position(acceleration, ip0, k) && ip + step == Position(acceleration, ip0, k + 1)
    ensures Advancing(acceleration) ==> step >= 1
    ensures !Advancing(acceleration) ==> k <= 2 && (k == 0 ==> step == 1) && (k > 0 ==> step == 0)
    ensures ip + step <= n && (Advancing(acceleration) || k < 2) ==>
              Scheduled(acceleration, ip0, ip + step, nb / 64, (nb + 1) % TWO32, k + 1)
  {
    hide Position, FirstSearchNb;
    PositionStep(acceleration, ip0, k);
    NextNumber(FirstSearchNb(acceleration), k);
    if ip + step <= n {
      ProgressStep(acceleration, ip0, ip, step, nb, k, n);
    }
  }

  lemma PositionStep(acceleration: nat, ip0: nat, k: nat)
    ensures Position(acceleration, ip0, k + 1) == Position(acceleration, ip0, k) + StepAt(acceleration, k)
    ensures StepAt(acceleration, k + 1) == (FirstSearchNb(acceleration) + k) % TWO32 / 64
  {
  }

  lemma NextNumber(f: nat, k: nat)
    ensures ((f + k) % TWO32 + 1) % TWO32 == (f + (k + 1)) % TWO32
  {
  }

  // ---------------------------------------------------------------- one sequence

  lemma {:induction false} SameFourIsSame(src: seq<byte>, p: nat, q: nat)
    requires q <= p && p + 4 <= |src| && SameFour(src, p, q)
    ensures Same(src, p, q, 4)
  {
    assert Same(src, p, q, 0);
    SameWord(src, p, q, 0, 4);
  }

  /** Extend a match backwards, over literals that are still pending. */
  method CatchUp(src: seq<byte>, anchor: nat, ip0: nat, m0: nat) returns (ip: nat, m: nat)
    requires anchor <= ip0 && m0 <= ip0 && ip0 + 4 <= |src| && Same(src, ip0, m0, 4)
    ensures anchor <= ip <= ip0 && m <= m0 && ip - m == ip0 - m0
    ensures Same(src, ip, m, ip0 - ip + 4)
    ensures ip0 == m0 && anchor == 0 ==> ip == m == 0
    ensures m0 == 0 ==> ip == ip0 && m == 0
  {
    ip, m := ip0, m0;
    while ip > anchor && m > 0 && src[ip - 1] == src[m - 1]
      invariant anchor <= ip <= ip0 && m <= m0 && ip - m == ip0 - m0
      invariant Same(src, ip, m, ip0 - ip + 4)
    {
      ip, m := ip - 1, m - 1;
    }
  }

  /** The whole match, from its four known bytes as far forward as it goes. */
  method ExtendMatch(src: seq<byte>, ip: nat, m: nat, ghost known: nat) returns (len: nat)
    requires m <= ip && 4 <= known && ip + known + LASTLITERALS <= |src| && Same(src, ip, m, known)
    ensures known <= len && ip + len + LASTLITERALS <= |src| && Same(src, ip, m, len)
    ensures ip + len + LASTLITERALS < |src| ==> src[ip + len] != src[m + len]
    ensures ip == m ==> ip + len + LASTLITERALS == |src|
  {
    var code := Count(src, ip + MINMATCH, m + MINMATCH, |src| - LASTLITERALS);
    len := MINMATCH + code;
  }

  /** A sequence costs at most 256/255 of the input it covers. */
  lemma {:induction false} SequenceCost(q: Sequence)
    requires q.offset <= MAX_DISTANCE && q.matchLen >= MINMATCH
    ensures 255 * |EncodeSequence(q)| <= 256 * (|q.literals| + q.matchLen)
  {
    var lit, code := |q.literals|, q.matchLen - MINMATCH;
    assert |EncodeSequence(q)| == 1 + |Extension(lit)| + lit + 2 + |Extension(code)|;
  }

  /** There is room in the output for a sequence, with the bytes written ahead included. */
  ghost predicate Room(n: nat, anchor: nat, op: nat, lit: nat, len: nat, capacity: nat) {
    && n <= MAX_INPUT_SIZE && capacity >= CompressBound(n) && 255 * op <= 256 * anchor
    && anchor + lit + len + LASTLITERALS <= n
  }

  /** Token and literals; directly behind another match there is only an empty token. */
  method EmitStart(src: seq<byte>, dst: array<byte>, anchor: nat, ip: nat, op: nat, direct: bool) returns (end: nat)
    requires anchor <= ip && ip + 8 <= |src| && (direct ==> anchor == ip)
    requires op + (ip - anchor) + (ip - anchor) / 255 + 10 <= dst.Length
    modifies dst
    ensures end == op + |Head(ip - anchor, 0)| + (ip - anchor) <= op + (ip - anchor) + (ip - anchor) / 255 + 2
    ensures At(dst[..], op, Head(ip - anchor, 0))
    ensures At(dst[..], op + |Head(ip - anchor, 0)|, src[anchor..ip])
    ensures forall j :: 0 <= j < op ==> dst[j] == old(dst[j])
  {
    if direct {
      dst[op] := 0;
      end := op + 1;
      assert Head(0, 0) == [0] && src[anchor..ip] == [];
    } else {
      end := EmitLiterals(src, dst, anchor, ip, op);
    }
  }

  lemma {:induction false} RoomIsEnough(n: nat, anchor: nat, op: nat, lit: nat, len: nat, capacity: nat)
    requires Room(n, anchor, op, lit, len, capacity)
    ensures op + lit + lit / 255 + len / 255 + 14 <= capacity
  {
    assert op <= anchor + anchor / 255;
    assert anchor / 255 + lit / 255 + len / 255 <= n / 255;
  }

  /** Write the sequence that ends the pending literals with a match of `len` bytes at `m`. */
  method EmitSequence(src: seq<byte>, dst: array<byte>, anchor: nat, ip: nat, op: nat, m: nat, len: nat, direct: bool,
                      pairs: bool)
    returns (end: nat)
    requires anchor <= ip && m <= ip && ip - m <= MAX_DISTANCE && len >= MINMATCH && ip + 8 <= |src|
    requires Room(|src|, anchor, op, ip - anchor, len, dst.Length) && (direct ==> anchor == ip)
    modifies dst
    ensures At(dst[..], op, EncodeSequence(Sequence(src[anchor..ip], ip - m, len)))
    ensures end == op + |EncodeSequence(Sequence(src[anchor..ip], ip - m, len))|
    ensures forall j :: 0 <= j < op ==> dst[j] == old(dst[j])
  {
    hide Head, Extension, At, OffsetBytes;
    ghost var lits := src[anchor..ip];
    RoomIsEnough(|src|, anchor, op, ip - anchor, len, dst.Length);
    var o := EmitStart(src, dst, anchor, ip, op, direct);
    ghost var s0 := dst[..];
    end := EmitMatch(dst, op, o, ip - anchor, ip - m, len - MINMATCH, pairs);
    AtUnchanged(s0, dst[..], op + |Head(ip - anchor, 0)|, lits);
    SequenceWritten(dst[..], op, lits, ip - m, len - MINMATCH);
  }

  // ---------------------------------------------------------------- what has been written so far

  /** The first `op` bytes of the output encode `qs`, which cover the first `anchor` bytes of the input. */
  ghost predicate Written(src: seq<byte>, d: seq<byte>, qs: seq<Sequence>, anchor: nat, op: nat) {
    && Formed(qs) && At(d, 0, EncodeAll(qs)) && |EncodeAll(qs)| == op
    && TotalLength(qs) == anchor <= |src|
    && 255 * op <= 256 * anchor
    && (qs != [] ==> anchor + LASTLITERALS <= |src|)
  }

  /** ... and reproduce them, with every match far enough from the end. */
  ghost predicate Faithful(src: seq<byte>, qs: seq<Sequence>, anchor: nat) {
    && anchor <= |src| && Expand([], qs) == Some(src[..anchor])
    && forall i :: 0 <= i < |qs| ==> TotalLength(qs[..i]) + |qs[i].literals| + MFLIMIT <= |src|
  }

  lemma {:induction false} WrittenStep(src: seq<byte>, d0: seq<byte>, d: seq<byte>, qs: seq<Sequence>, anchor: nat,
                                       op: nat, q: Sequence)
    requires Written(src, d0, qs, anchor, op) && |d| == |d0|
    requires q.offset <= MAX_DISTANCE && q.matchLen >= MINMATCH
    requires anchor + |q.literals| + q.matchLen + LASTLITERALS <= |src|
    requires forall j :: 0 <= j < op ==> d[j] == d0[j]
    requires At(d, op, EncodeSequence(q))
    ensures Written(src, d, qs + [q], anchor + |q.literals| + q.matchLen, op + |EncodeSequence(q)|)
  {
    assert (qs + [q])[..|qs|] == qs;
    AtUnchanged(d0, d, 0, EncodeAll(qs));
    AtJoin(d, 0, EncodeAll(qs), EncodeSequence(q));
    SequenceCost(q);
  }

  lemma {:induction false} MatchReproduces(src: seq<byte>, ip: nat, m: nat, len: nat)
    requires m < ip && Same(src, ip, m, len)
    ensures CopyMatch(src[..ip], ip - m, len) == src[..ip + len]
  {
    PeriodicIsCopyMatch(src[..ip], ip - m, src[..ip + len]);
  }

  lemma {:induction false} FaithfulStep(src: seq<byte>, qs: seq<Sequence>, anchor: nat, ip: nat, m: nat, len: nat)
    requires Faithful(src, qs, anchor) && TotalLength(qs) == anchor <= ip && m < ip && Same(src, ip, m, len)
    requires ip + MFLIMIT <= |src|
    ensures Faithful(src, qs + [Sequence(src[anchor..ip], ip - m, len)], ip + len)
  {
    var q := Sequence(src[anchor..ip], ip - m, len);
    MatchReproduces(src, ip, m, len);
    assert src[..anchor] + src[anchor..ip] == src[..ip];
    OneMore(src, qs, q, src[..anchor], src[..ip]);
    hide Expand, TotalLength;
    var r := qs + [q];
    forall i | 0 <= i < |r|
      ensures TotalLength(r[..i]) + |r[i].literals| + MFLIMIT <= |src|
    {
      if i < |qs| {
        assert r[..i] == qs[..i];
      } else {
        assert r[..i] == qs;
      }
    }
  }

  lemma {:induction false} OneMore(src: seq<byte>, qs: seq<Sequence>, q: Sequence, o: seq<byte>, h: seq<byte>)
    requires Expand([], qs) == Some(o) && h == o + q.literals && q.offset <= |h|
    ensures Expand([], qs + [q]) == Some(CopyMatch(h, q.offset, q.matchLen))
  {
    assert (qs + [q])[..|qs|] == qs;
  }

  // ---------------------------------------------------------------- the compressor

  method RecordSequence(src: seq<byte>, dst: array<byte>, anchor: nat, ip: nat, op: nat, m: nat, len: nat, direct: bool,
                        ghost qs: seq<Sequence>)
    returns (end: nat)
    requires anchor <= ip && m <= ip && ip - m <= MAX_DISTANCE && (direct ==> anchor == ip)
    requires len >= MINMATCH && ip + 8 <= |src| && ip + len + LASTLITERALS <= |src| <= MAX_INPUT_SIZE
    requires dst.Length >= CompressBound(|src|) && Written(src, dst[..], qs, anchor, op)
    modifies dst
    ensures Written(src, dst[..], qs + [Sequence(src[anchor..ip], ip - m, len)], ip + len, end)
  {
    ghost var d0 := dst[..];
    end := EmitSequence(src, dst, anchor, ip, op, m, len, direct, false);
    WrittenStep(src, d0, dst[..], qs, anchor, op, Sequence(src[anchor..ip], ip - m, len));
  }

  lemma WrittenLength(src: seq<byte>, d: seq<byte>, qs: seq<Sequence>, anchor: nat, op: nat)
    requires Written(src, d, qs, anchor, op)
    ensures TotalLength(qs) == anchor
  {
  }

  /** Take one match: measure it, write the sequence, and record what it covers. */
  method WriteMatch(src: seq<byte>, dst: array<byte>, anchor: nat, ip: nat, op: nat, m: nat, direct: bool,
                    ghost known: nat, ghost qs: seq<Sequence>, ghost advancing: bool)
    returns (len: nat, end: nat, ghost out: seq<Sequence>)
    requires anchor <= ip && m <= ip && ip - m <= MAX_DISTANCE && (direct ==> anchor == ip)
    requires 4 <= known && ip + known + 7 <= |src| <= MAX_INPUT_SIZE && Same(src, ip, m, known)
    requires dst.Length >= CompressBound(|src|) && Written(src, dst[..], qs, anchor, op)
    requires advancing ==> Faithful(src, qs, anchor) && m < ip && ip + MFLIMIT <= |src|
    modifies dst
    ensures known <= len && Written(src, dst[..], out, ip + len, end)
    ensures out == qs + [Sequence(src[anchor..ip], ip - m, len)] && ip + len + LASTLITERALS <= |src|
    ensures ip + len + LASTLITERALS < |src| ==> src[ip + len] != src[m + len]
    ensures advancing ==> Faithful(src, out, ip + len)
  {
    WrittenLength(src, dst[..], qs, anchor, op);
    hide *;
    len := ExtendMatch(src, ip, m, known);
    out := qs + [Sequence(src[anchor..ip], ip - m, len)];
    if advancing {
      FaithfulStep(src, qs, anchor, ip, m, len);
    }
    end := RecordSequence(src, dst, anchor, ip, op, m, len, direct, qs);
  }

  lemma EnterOne(t: seq<nat>, src: seq<byte>, hash: seq<byte> -> nat, c: Setup, p: nat)
    requires HashInto(hash, |t|) && p + 8 <= |src|
    ensures Entered(t, src, hash, c, [p]) == t[HashAt(hash, c.tableType, src, p) := c.startIndex + p]
  {
    assert [p][..0] == [] && Entered(t, src, hash, c, []) == t;
  }

  /** After a match: enter the position two back, then try the current one at once. */
  method TestNext(src: seq<byte>, table: array<nat>, hash: seq<byte> -> nat, c: Setup, ip: nat)
    returns (hit: bool, m: nat)
    requires HashInto(hash, table.Length) && IndexRange(c, |src|) && 2 <= ip && ip + MFLIMIT <= |src|
    requires TableOk(table[..], c, ip)
    modifies table
    ensures hit ==> m < ip && ip - m <= MAX_DISTANCE && SameFour(src, ip, m)
    ensures TableOk(table[..], c, ip + 1)
    ensures var t := Entered(old(table[..]), src, hash, c, [ip - 2]);
            && (hit <==> Repeat(src, c, t[HashAt(hash, c.tableType, src, ip)], ip))
            && table[..] == t[HashAt(hash, c.tableType, src, ip) := c.startIndex + ip]
  {
    hide Repeat, Entered, HashAt;
    ghost var t := table[..];
    EnterOne(t, src, hash, c, ip - 2);
    HashFits(hash, table.Length, c.tableType, src, ip - 2);
    HashFits(hash, table.Length, c.tableType, src, ip);
    var h, back: nat := HashAt(hash, c.tableType, src, ip - 2), c.startIndex + ip - 2;
    table[h] := Stored(c.tableType, back);
    assert table[..] == t[h := back];
    h := HashAt(hash, c.tableType, src, ip);
    hit, m := Probe(src, table, c, h, ip, ip);
  }

  /** No four bytes of the input occur twice. */
  ghost predicate NoRepeats(src: seq<byte>) {
    forall p, q :: 0 <= q < p && p + 4 <= |src| ==> !SameFour(src, p, q)
  }

  /** All bytes of the input are equal. */
  ghost predicate Uniform(src: seq<byte>) {
    forall i :: 0 <= i < |src| ==> src[i] == src[0]
  }

  /** There the first probe finds what was entered for the first position. */
  lemma {:induction false} UniformRepeats(src: seq<byte>, hash: seq<byte> -> nat, c: Setup)
    requires Uniform(src) && |src| >= MIN_LENGTH
    ensures HashAt(hash, c.tableType, src, 1) == HashAt(hash, c.tableType, src, 0) && Repeat(src, c, c.startIndex, 1)
  {
    var w := HashWidth(c.tableType);
    assert src[1..1 + w] == src[0..0 + w];
    assert src[1..1 + 4] == src[0..0 + 4];
  }

  /** A search whose first probe can be a hit ends there. */
  lemma {:induction false} FirstProbeHits(t0: seq<nat>, t1: seq<nat>, src: seq<byte>, hash: seq<byte> -> nat, c: Setup,
                                          acceleration: nat, ip0: nat, ps: seq<nat>, found: bool, ip: nat, m: nat)
    requires HashInto(hash, |t0|) && ip0 + MFLIMIT <= |src| && (found ==> ip + 11 <= |src|)
    requires Repeat(src, c, t0[HashAt(hash, c.tableType, src, ip0)], ip0)
    requires found ==> exists t :: Ended(t0, t, t1, src, hash, c, acceleration, ip0, ps, ip, m)
    requires found ==> ip == Position(acceleration, ip0, |ps|)
    requires !found ==>
               Missed(t0, t1, src, hash, c, acceleration, ip0, ps) && Position(acceleration, ip0, |ps| + 1) + 11 > |src|
    ensures found && ip == ip0 && c.startIndex + m == t0[HashAt(hash, c.tableType, src, ip0)]
  {
    assert Position(acceleration, ip0, 0) == ip0 && Position(acceleration, ip0, 1) == ip0 + 1;
    hide Repeat, Position, HashAt, HashInto;
    if ps != [] && forall j :: 0 <= j < |ps| ==> ps[j] + 8 <= |src| {
      FirstIsHit(t0, src, hash, c, ps);
    }
  }

  lemma FirstIsHit(t0: seq<nat>, src: seq<byte>, hash: seq<byte> -> nat, c: Setup, ps: seq<nat>)
    requires HashInto(hash, |t0|) && ps != [] && forall j :: 0 <= j < |ps| ==> ps[j] + 8 <= |src|
    ensures HitAt(t0, src, hash, c, ps, 0) <==> Repeat(src, c, t0[HashAt(hash, c.tableType, src, ps[0])], ps[0])
  {
    assert ps[..0] == [];
  }

  /** Find the next match at or after `ip0` and extend it backwards. */
  method Search(src: seq<byte>, table: array<nat>, hash: seq<byte> -> nat, c: Setup, acceleration: nat, anchor: nat,
                ip0: nat)
    returns (found: bool, ip: nat, m: nat, ghost known: nat)
    requires HashInto(hash, table.Length) && IndexRange(c, |src|) && |src| <= MAX_INPUT_SIZE
    requires 1 <= ip0 && ip0 + 11 <= |src| && TableOk(table[..], c, ip0) && anchor <= ip0
    modifies table
    ensures found ==> anchor <= ip && m <= ip && ip - m <= MAX_DISTANCE && Same(src, ip, m, known)
    ensures found ==> 4 <= known && ip + known + 7 <= |src| && ip0 + 4 <= ip + known
    ensures found ==> TableOk(table[..], c, ip + known)
    ensures found && Advancing(acceleration) ==> m < ip && ip + MFLIMIT <= |src|
    ensures TableOk(table[..], c, |src|)
    ensures !Advancing(acceleration) && ip0 + MFLIMIT <= |src| && anchor == 0 && NoRepeats(src) ==>
              found && ip == m == 0
    ensures Uniform(src) && ip0 == 1 && |src| >= MIN_LENGTH ==>
              old(table[..])[HashAt(hash, c.tableType, src, 0)] == c.startIndex ==> found && ip == 1 && m == 0
  {
    hide Missed, Entered, Position, HashAt, TableOk, IndexRange, Advancing, Uniform, Repeat;
    ghost var ps, t0 := [], table[..];
    HashFits(hash, table.Length, c.tableType, src, ip0);
    found, ip, m, ps := FindMatch(src, table, hash, c, acceleration, ip0);
    if Uniform(src) && ip0 == 1 && |src| >= MIN_LENGTH {
      UniformRepeats(src, hash, c);
      if t0[HashAt(hash, c.tableType, src, 0)] == c.startIndex {
        FirstProbeHits(t0, table[..], src, hash, c, acceleration, ip0, ps, found, ip, m);
      }
    }
    known := 0;
    if found {
      SameFourIsSame(src, ip, m);
      TableGrows(table[..], c, ip + 1, ip + 4);
      ghost var ip1 := ip;
      ip, m := CatchUp(src, anchor, ip, m);
      known := ip1 - ip + 4;
    }
  }

  lemma TableGrows(table: seq<nat>, c: Setup, lo: nat, hi: nat)
    requires TableOk(table, c, lo) && lo <= hi
    ensures TableOk(table, c, hi)
  {
  }

  /** What the main loop keeps: the sequences written so far cover the input up to `anchor`. */
  ghost predicate SoFar(src: seq<byte>, d: seq<byte>, t: seq<nat>, c: Setup, advancing: bool, qs: seq<Sequence>,
                        anchor: nat, op: nat, ip: nat) {
    Written(src, d, qs, anchor, op) && (advancing ==> Faithful(src, qs, anchor)) && TableOk(t, c, ip)
  }

  lemma NothingWritten(src: seq<byte>, d: seq<byte>)
    ensures Written(src, d, [], 0, 0) && Faithful(src, [], 0)
  {
  }

  lemma NothingSoFar(src: seq<byte>, d: seq<byte>, t: seq<nat>, c: Setup, advancing: bool)
    requires TableOk(t, c, 1)
    ensures SoFar(src, d, t, c, advancing, [], 0, 0, 1)
  {
  }

  /** With a vanishing step and nothing to find, the first match is the input itself. */
  ghost predicate SelfMatch(src: seq<byte>, acceleration: nat) {
    !Advancing(acceleration) && NoRepeats(src)
  }

  /** Inputs whose first match covers everything but the last literals. */
  ghost predicate Foreseen(src: seq<byte>, acceleration: nat) {
    |src| >= MIN_LENGTH && (SelfMatch(src, acceleration) || (Uniform(src) && Advancing(acceleration)))
  }

  ghost function Foretold(src: seq<byte>, acceleration: nat): Sequence
    requires Foreseen(src, acceleration)
  {
    if SelfMatch(src, acceleration) then Sequence([], 0, |src| - LASTLITERALS)
    else Sequence([src[0]], 1, |src| - LASTLITERALS - 1)
  }

  lemma {:induction false} AsForetold(src: seq<byte>, acceleration: nat, ip: nat, len: nat)
    requires Foreseen(src, acceleration) && ip == (if SelfMatch(src, acceleration) then 0 else 1)
    requires ip + len + LASTLITERALS <= |src| && (ip + len + LASTLITERALS < |src| ==> src[ip + len] != src[0 + len])
    ensures ip + len == |src| - LASTLITERALS && Sequence(src[0..ip], ip - 0, len) == Foretold(src, acceleration)
  {
    assert src[0..0] == [] && src[0..1] == [src[0]];
  }

  /** Find the next match, or take the one at hand, and write it. */
  method NextMatch(src: seq<byte>, dst: array<byte>, table: array<nat>, hash: seq<byte> -> nat, c: Setup,
                   acceleration: nat, anchor: nat, ip0: nat, m0: nat, direct: bool, op0: nat, ghost qs0: seq<Sequence>)
    returns (found: bool, ip: nat, op: nat, ghost qs: seq<Sequence>)
    requires HashInto(hash, table.Length) && IndexRange(c, |src|) && MIN_LENGTH <= |src| <= MAX_INPUT_SIZE
    requires dst.Length >= CompressBound(|src|) && anchor <= ip0 && 1 <= ip0 && ip0 + 11 <= |src|
    requires SoFar(src, dst[..], table[..], c, Advancing(acceleration), qs0, anchor, op0,
                   if direct then ip0 + 1 else ip0)
    requires direct ==>
               ip0 == anchor && m0 < ip0 && ip0 - m0 <= MAX_DISTANCE && ip0 + MFLIMIT <= |src| && SameFour(src, ip0, m0)
    requires Foreseen(src, acceleration) ==>
               && anchor == 0 && ip0 == 1 && !direct && qs0 == []
               && table[..][HashAt(hash, c.tableType, src, 0)] == c.startIndex
    modifies dst, table
    ensures if found then ip0 < ip && SoFar(src, dst[..], table[..], c, Advancing(acceleration), qs, ip, op, ip)
            else SoFar(src, dst[..], table[..], c, Advancing(acceleration), qs, anchor, op, |src|)
    ensures Foreseen(src, acceleration) ==>
              found && ip == |src| - LASTLITERALS && qs == [Foretold(src, acceleration)]
  {
    hide Written, Faithful, TableOk, IndexRange, CompressBound, Advancing, NoRepeats, Uniform, HashAt;
    ghost var known := 4;
    var m := m0;
    ip, op, qs := ip0, op0, qs0;
    if direct {
      SameFourIsSame(src, ip, m);
    } else {
      found, ip, m, known := Search(src, table, hash, c, acceleration, anchor, ip);
      if !found {
        return;
      }
    }
    var len;
    len, op, qs := WriteMatch(src, dst, anchor, ip, op, m, direct, known, qs, Advancing(acceleration));
    TableGrows(table[..], c, if direct then ip + 1 else ip + known, ip + len);
    if Foreseen(src, acceleration) {
      AsForetold(src, acceleration, ip, len);
    }
    found, ip := true, ip + len;
  }

  /** The main loop, up to the point where only literals are left. */
  method CompressLoop(src: seq<byte>, dst: array<byte>, table: array<nat>, hash: seq<byte> -> nat, c: Setup,
                      acceleration: nat)
    returns (anchor: nat, op: nat, ghost qs: seq<Sequence>)
    requires HashInto(hash, table.Length) && IndexRange(c, |src|) && MIN_LENGTH <= |src| <= MAX_INPUT_SIZE
    requires dst.Length >= CompressBound(|src|) && TableOk(table[..], c, 1)
    requires table[HashAt(hash, c.tableType, src, 0)] == c.startIndex
    modifies dst, table
    ensures SoFar(src, dst[..], table[..], c, Advancing(acceleration), qs, anchor, op, |src|)
    ensures Foreseen(src, acceleration) ==>
              anchor == |src| - LASTLITERALS && qs == [Foretold(src, acceleration)]
  {
    hide Written, Faithful, TableOk, IndexRange, CompressBound, Advancing, Foreseen, HashAt;
    HashFits(hash, table.Length, c.tableType, src, 0);
    NothingSoFar(src, dst[..], table[..], c, Advancing(acceleration));
    anchor, op, qs := 0, 0, [];
    var ip, m: nat, direct := 1, 0, false;
    while true
      invariant anchor <= ip && 1 <= ip && ip + 11 <= |src|
      invariant SoFar(src, dst[..], table[..], c, Advancing(acceleration), qs, anchor, op,
                      if direct then ip + 1 else ip)
      invariant Foreseen(src, acceleration) ==>
                  && anchor == 0 && ip == 1 && !direct && qs == []
                  && table[..][HashAt(hash, c.tableType, src, 0)] == c.startIndex
      invariant direct ==>
                  ip == anchor && m < ip && ip - m <= MAX_DISTANCE && ip + MFLIMIT <= |src| && SameFour(src, ip, m)
      decreases |src| - ip
    {
      var found;
      found, ip, op, qs := NextMatch(src, dst, table, hash, c, acceleration, anchor, ip, m, direct, op, qs);
      if !found {
        return;
      }
      anchor := ip;
      if ip >= |src| - 11 {
        WithinInput(src, dst[..], qs, anchor, op);
        TableGrows(table[..], c, ip, |src|);
        return;
      }
      direct, m := TestNext(src, table, hash, c, ip);
      if !direct {
        ip := ip + 1;
      }
    }
  }

  lemma WithinInput(src: seq<byte>, d: seq<byte>, qs: seq<Sequence>, anchor: nat, op: nat)
    requires Written(src, d, qs, anchor, op)
    ensures anchor <= |src|
  {
  }

  // ---------------------------------------------------------------- the finished block

  /** `block` is a well-ended LZ4 block that decodes, with no history, to `src`. */
  ghost predicate Compresses(src: seq<byte>, block: seq<byte>) {
    && Decode(block, 0, []) == Some(src)
    && WellEnded(block, 0, false)
    && |block| <= CompressBound(|src|)
  }

  lemma {:induction false} AheadAndBehind(qs: seq<Sequence>, lit: seq<byte>, i: nat)
    requires i <= |qs|
    ensures TotalLength(qs[..i]) + Ahead(qs, lit, i) == TotalLength(qs) + |lit|
    decreases |qs| - i
  {
    if i == |qs| {
      assert qs[..i] == qs;
    } else {
      AheadAndBehind(qs, lit, i + 1);
      assert qs[..i + 1][..i] == qs[..i];
    }
  }

  lemma {:induction false} FaithfulIsRestricted(src: seq<byte>, qs: seq<Sequence>, anchor: nat)
    requires Faithful(src, qs, anchor) && TotalLength(qs) == anchor
    requires qs != [] ==> anchor + LASTLITERALS <= |src|
    ensures Restricted(qs, src[anchor..])
  {
    var lit := src[anchor..];
    forall i | 0 <= i < |qs|
      ensures qs[i].matchLen + Ahead(qs, lit, i + 1) >= MFLIMIT
    {
      AheadAndBehind(qs, lit, i);
    }
  }

  lemma {:induction false} BlockDecodes(src: seq<byte>, block: seq<byte>, qs: seq<Sequence>, anchor: nat, op: nat)
    requires Written(src, block, qs, anchor, op) && Faithful(src, qs, anchor)
    requires At(block, op, EncodeLast(src[anchor..])) && |block| == op + |EncodeLast(src[anchor..])|
    ensures Decode(block, 0, []) == Some(src)
  {
    hide EncodeAll, Expand, Decode, EncodeLast;
    assert src[..anchor] + src[anchor..] == src;
    FormatRoundTrip(block, [], qs, src[anchor..], src[..anchor]);
  }

  lemma {:induction false} BlockEndsWell(src: seq<byte>, block: seq<byte>, qs: seq<Sequence>, anchor: nat, op: nat)
    requires Written(src, block, qs, anchor, op) && Faithful(src, qs, anchor)
    requires At(block, op, EncodeLast(src[anchor..])) && |block| == op + |EncodeLast(src[anchor..])|
    ensures WellEnded(block, 0, false)
  {
    FaithfulIsRestricted(src, qs, anchor);
    assert qs[..0] == [];
    WellEndedFrom(block, qs, src[anchor..], 0);
  }

  /** The last literals keep the block within the bound. */
  lemma {:induction false} LastCost(n: nat, anchor: nat, op: nat, lit: seq<byte>)
    requires anchor + |lit| == n <= MAX_INPUT_SIZE && 255 * op <= 256 * anchor
    ensures op + |lit| + |lit| / 255 + 2 <= CompressBound(n)
    ensures op + |EncodeLast(lit)| <= CompressBound(n)
  {
    assert anchor / 255 + |lit| / 255 <= n / 255;
    assert |EncodeLast(lit)| <= |lit| + |lit| / 255 + 2;
  }

  lemma {:induction false} WrittenPrefix(src: seq<byte>, d0: seq<byte>, d: seq<byte>, qs: seq<Sequence>, anchor: nat,
                                         op: nat, n: nat)
    requires Written(src, d0, qs, anchor, op) && op <= n <= |d|
    requires op <= |d0| && forall j :: 0 <= j < op ==> d[j] == d0[j]
    ensures Written(src, d[..n], qs, anchor, op)
  {
    hide EncodeAll, TotalLength, Formed, At;
    StartStays(d0, d[..n], EncodeAll(qs));
  }

  lemma StartStays(d0: seq<byte>, d: seq<byte>, part: seq<byte>)
    requires At(d0, 0, part) && |part| <= |d| && forall j :: 0 <= j < |part| ==> d[j] == d0[j]
    ensures At(d, 0, part)
  {
    assert forall k :: 0 <= k < |part| ==> part[k] == d0[0 + k] && d[0 + k] == d0[0 + k];
  }

  /** The block as a whole: the sequences, then the last literals, and nothing behind them. */
  ghost predicate Finished(src: seq<byte>, block: seq<byte>, qs: seq<Sequence>, anchor: nat, op: nat) {
    && Written(src, block, qs, anchor, op) && anchor <= |src|
    && At(block, op, EncodeLast(src[anchor..])) && |block| == op + |EncodeLast(src[anchor..])|
  }

  /** Write the last literals. */
  method EmitRest(src: seq<byte>, dst: array<byte>, anchor: nat, op: nat, ghost qs: seq<Sequence>) returns (n: nat)
    requires Written(src, dst[..], qs, anchor, op) && |src| <= MAX_INPUT_SIZE && dst.Length >= CompressBound(|src|)
    modifies dst
    ensures 1 <= n <= CompressBound(|src|) && n <= dst.Length && Finished(src, dst[..n], qs, anchor, op)
  {
    WithinInput(src, dst[..], qs, anchor, op);
    ghost var lit, d0 := src[anchor..], dst[..];
    LastCost(|src|, anchor, op, lit);
    n := EmitLast(src, dst, anchor, op);
    hide Head, Extension, Formed, TotalLength, At;
    WrittenPrefix(src, d0, dst[..], qs, anchor, op, n);
    assert dst[..][..n] == dst[..n];
    AtPrefix(dst[..], n, op, EncodeLast(lit));
  }

  /** What a finished block decodes to. */
  lemma {:induction false} FinishedBlock(src: seq<byte>, block: seq<byte>, qs: seq<Sequence>, anchor: nat, op: nat,
                                         good: bool, stuck: bool)
    requires Finished(src, block, qs, anchor, op) && |block| <= CompressBound(|src|)
    requires good ==> Faithful(src, qs, anchor)
    requires stuck ==>
               |src| >= MIN_LENGTH && anchor == |src| - LASTLITERALS && qs == [Sequence([], 0, |src| - LASTLITERALS)]
    ensures good ==> Compresses(src, block)
    ensures stuck ==> Decode(block, 0, []) == Some(ZerosThenTail(src))
  {
    hide Decode, WellEnded, Faithful, ZerosThenTail, CompressBound, Written, At, EncodeLast;
    if good {
      BlockDecodes(src, block, qs, anchor, op);
      BlockEndsWell(src, block, qs, anchor, op);
    }
    if stuck {
      StuckBlock(src, block, op);
    }
  }

  lemma FinishedSize(src: seq<byte>, block: seq<byte>, qs: seq<Sequence>, anchor: nat, op: nat)
    requires Finished(src, block, qs, anchor, op)
    ensures Formed(qs) && anchor <= |src| && |block| == |EncodeAll(qs)| + |EncodeLast(src[anchor..])|
  {
  }

  /** The last literals complete the block. */
  method FinishBlock(src: seq<byte>, dst: array<byte>, anchor: nat, op: nat, ghost qs: seq<Sequence>, ghost good: bool,
                     ghost stuck: bool)
    returns (n: nat)
    requires Written(src, dst[..], qs, anchor, op) && |src| <= MAX_INPUT_SIZE && dst.Length >= CompressBound(|src|)
    requires good ==> Faithful(src, qs, anchor)
    requires stuck ==>
               |src| >= MIN_LENGTH && anchor == |src| - LASTLITERALS && qs == [Sequence([], 0, |src| - LASTLITERALS)]
    modifies dst
    ensures 1 <= n <= CompressBound(|src|) && Formed(qs) && anchor <= |src|
    ensures n == |EncodeAll(qs)| + |EncodeLast(src[anchor..])|
    ensures good ==> Compresses(src, dst[..n])
    ensures stuck ==> Decode(dst[..n], 0, []) == Some(ZerosThenTail(src))
  {
    hide Written, Finished, Faithful, Compresses, Decode, ZerosThenTail, CompressBound;
    n := EmitRest(src, dst, anchor, op, qs);
    FinishedSize(src, dst[..n], qs, anchor, op);
    FinishedBlock(src, dst[..n], qs, anchor, op, good, stuck);
  }

  /** The first position of the block enters the table. */
  method FirstEntry(src: seq<byte>, table: array<nat>, hash: seq<byte> -> nat, c: Setup)
    requires HashInto(hash, table.Length) && IndexRange(c, |src|) && MIN_LENGTH <= |src| <= MAX_INPUT_SIZE
             && TableOk(table[..], c, 1)
    modifies table
    ensures TableOk(table[..], c, 1) && table[HashAt(hash, c.tableType, src, 0)] == c.startIndex
  {
    ghost var t := table[..];
    var h := HashAt(hash, c.tableType, src, 0);
    table[h] := Stored(c.tableType, c.startIndex);
    assert table[..] == t[h := c.startIndex];
  }

  /** Compression of one block, given a table that holds nothing the search could be misled by. */
  method CompressBlock(src: seq<byte>, dst: array<byte>, table: array<nat>, hash: seq<byte> -> nat, c: Setup,
                       acceleration: nat)
    returns (n: nat)
    requires HashInto(hash, table.Length) && IndexRange(c, |src|) && |src| <= MAX_INPUT_SIZE
    requires dst.Length >= CompressBound(|src|) && TableOk(table[..], c, 1)
    modifies dst, table
    ensures 1 <= n <= CompressBound(|src|) && n <= |src| + |src| / 255 + 16
    ensures if |src| < MIN_LENGTH then table[..] == old(table[..]) else TableOk(table[..], c, |src|)
    ensures |src| < MIN_LENGTH || Advancing(acceleration) ==> Compresses(src, dst[..n])
    ensures |src| >= MIN_LENGTH && !Advancing(acceleration) && NoRepeats(src) ==>
              Decode(dst[..n], 0, []) == Some(ZerosThenTail(src)) && Decode(dst[..n], 0, []) != Some(src)
    ensures |src| >= MIN_LENGTH && Advancing(acceleration) && Uniform(src) ==> n == UniformSize(|src|)
  {
    hide Written, Faithful, TableOk, IndexRange, CompressBound, Advancing, Compresses, Decode, Uniform, HashAt;
    var anchor, op := 0, 0;
    ghost var qs := [];
    ghost var long := |src| >= MIN_LENGTH;
    NothingWritten(src, dst[..]);
    BoundIs(|src|);
    if |src| >= MIN_LENGTH {
      FirstEntry(src, table, hash, c);
      anchor, op, qs := CompressLoop(src, dst, table, hash, c, acceleration);
    }
    n := FinishBlock(src, dst, anchor, op, qs, !long || Advancing(acceleration), long && SelfMatch(src, acceleration));
    if long && NoRepeats(src) {
      NotItself(src);
    }
    if long && Advancing(acceleration) && Uniform(src) {
      UniformBlock(src, qs[0]);
    }
  }

  lemma BoundIs(n: nat)
    ensures CompressBound(n) <= n + n / 255 + 16
  {
  }

  /** Equal bytes take one literal and one match: a few bytes, and one for every 255 bytes of input. */
  function UniformSize(n: nat): nat {
    if n < 25 then 10 else 11 + (n - 25) / 255
  }

  lemma {:induction false} UniformBlock(src: seq<byte>, q: Sequence)
    requires |src| >= MIN_LENGTH && q == Sequence([src[0]], 1, |src| - LASTLITERALS - 1)
    ensures Formed([q]) && |EncodeAll([q])| + |EncodeLast(src[|src| - LASTLITERALS..])| == UniformSize(|src|)
  {
    assert [q][..0] == [];
    assert EncodeAll([]) == [];
  }

  /** What a block written with a vanishing step decodes to. */
  ghost function ZerosThenTail(src: seq<byte>): seq<byte>
    requires |src| >= LASTLITERALS
  {
    CopyMatch([], 0, |src| - LASTLITERALS) + src[|src| - LASTLITERALS..]
  }

  /** Input without repeats does not start with eight zeros. */
  lemma {:induction false} NotItself(src: seq<byte>)
    requires |src| >= MIN_LENGTH && NoRepeats(src)
    ensures ZerosThenTail(src) != src
  {
    var k := |src| - LASTLITERALS;
    CopyMatchSpec([], 0, k);
    assert forall j :: 0 <= j < 5 ==> ZerosThenTail(src)[j] == CopyMatch([], 0, k)[j] == 0;
    if ZerosThenTail(src) == src {
      FiveZeros(src);
    }
  }

  lemma {:induction false} FiveZeros(src: seq<byte>)
    requires |src| >= 5 && forall j :: 0 <= j < 5 ==> src[j] == 0
    ensures SameFour(src, 1, 0)
  {
    assert src[0..0 + 4] == [0, 0, 0, 0] && src[1..1 + 4] == [0, 0, 0, 0];
  }

  lemma {:induction false} StuckBlock(src: seq<byte>, block: seq<byte>, op: nat)
    requires |src| >= MIN_LENGTH
    requires Written(src, block, [Sequence([], 0, |src| - LASTLITERALS)], |src| - LASTLITERALS, op)
    requires var lit := src[|src| - LASTLITERALS..]; At(block, op, EncodeLast(lit)) && |block| == op + |EncodeLast(lit)|
    ensures Decode(block, 0, []) == Some(ZerosThenTail(src))
  {
    var q := Sequence([], 0, |src| - LASTLITERALS);
    assert [q][..0] == [];
    assert Expand([], [q]) == Some(CopyMatch([], 0, |src| - LASTLITERALS)) by {
      assert [] + q.literals == [];
      assert Expand([], []) == Some([]);
    }
    FormatRoundTrip(block, [], [q], src[|src| - LASTLITERALS..], CopyMatch([], 0, |src| - LASTLITERALS));
  }

  lemma {:induction false} AtPrefix(d: seq<byte>, n: nat, op: nat, part: seq<byte>)
    requires At(d, op, part) && op + |part| <= n <= |d|
    ensures At(d[..n], op, part)
  {
  }

  // ---------------------------------------------------------------- state shared between blocks

  const HASH_ENTRIES := 8192

  datatype TableState = Cleared | Used(tableType: TableType)

  /** LZ4_hash4 and LZ4_hash5, as the table type selects them. */
  function LittleEndian(w: seq<byte>): nat {
    if w == [] then 0 else w[0] + 256 * LittleEndian(w[1..])
  }

  function HashFor(tt: TableType): seq<byte> -> nat {
    if tt == ByU16 then
      w => LittleEndian(w) * 2654435761 % TWO32 / 0x8_0000
    else
      w => (LittleEndian(w) * 0x100_0000 % (TWO32 * TWO32)) * 889523592379 % (TWO32 * TWO32) / 0x10_0000_0000_0000
  }

  lemma HashForInto(tt: TableType)
    ensures HashInto(HashFor(tt), HASH_ENTRIES)
  {
  }

  /** The first block of a fresh state runs without acceleration unless one is asked for. */
  function Acceleration(requested: int): nat {
    if requested < 1 then 1 else requested
  }

  /** Accelerations whose step vanishes in the shift by six. */
  predicate Vanishing(requested: int) {
    requested > 0 && requested % 0x400_0000 == 0
  }

  class Stream {
    const hashTable: array<nat>
    var currentOffset: nat
    var state: TableState

    /** A cleared table is all zero; a used one holds only indices below the current offset. */
    ghost predicate Valid()
      reads this, hashTable
    {
      && hashTable.Length == HASH_ENTRIES
      && (state == Cleared ==> currentOffset == 0)
      && forall h :: 0 <= h < HASH_ENTRIES ==> hashTable[h] == 0 || (state.Used? && hashTable[h] < currentOffset)
    }

    constructor ()
      ensures Valid() && fresh(hashTable) && state == Cleared
    {
      hashTable := new nat[HASH_ENTRIES](_ => 0);
      currentOffset, state := 0, Cleared;
    }

    /** How the next block of the given type will see the table. */
    function SetupFor(tt: TableType): Setup
      reads this
    {
      Setup(tt, currentOffset, tt == ByU16 && currentOffset != 0)
    }

    /** LZ4_prepareTable: keep the table where that is safe, else clear it; leave a gap before 32-bit indices. */
    method PrepareTable(inputSize: nat, tt: TableType)
      requires Valid() && (tt == ByU16 ==> inputSize < LIMIT_64K)
      modifies this, hashTable
      ensures Valid() && TableOk(hashTable[..], SetupFor(tt), 1)
      ensures inputSize <= MAX_INPUT_SIZE ==> IndexRange(SetupFor(tt), inputSize)
    {
      if state != Cleared {
        if state.tableType != tt || (tt == ByU16 && currentOffset + inputSize >= 0xFFFF)
           || (tt == ByU32 && currentOffset > GB) || inputSize >= 4096 {
          forall h | 0 <= h < hashTable.Length {
            hashTable[h] := 0;
          }
          currentOffset, state := 0, Cleared;
        }
      }
      if currentOffset != 0 && tt == ByU32 {
        currentOffset := currentOffset + 65536;
      }
    }

    /**
     LZ4_compress_fast_extState_fastReset with enough output space. Whatever blocks went before, the
     result decodes on its own; with an acceleration that advances it decodes to the input.
     */
    method CompressFastReset(src: seq<byte>, dst: array<byte>, acceleration: int) returns (n: nat)
      requires Valid() && dst.Length >= CompressBound(|src|) && dst.Length > 0
      modifies this, hashTable, dst
      ensures Valid()
      ensures n <= CompressBound(|src|) && (n == 0 <==> |src| > MAX_INPUT_SIZE)
      ensures |src| <= MAX_INPUT_SIZE && (|src| < MIN_LENGTH || !Vanishing(acceleration)) ==>
                Compresses(src, dst[..n])
      ensures MIN_LENGTH <= |src| <= MAX_INPUT_SIZE && Vanishing(acceleration) && NoRepeats(src) ==>
                Decode(dst[..n], 0, []) == Some(ZerosThenTail(src)) && Decode(dst[..n], 0, []) != Some(src)
      ensures MIN_LENGTH <= |src| <= MAX_INPUT_SIZE && !Vanishing(acceleration) && Uniform(src) ==>
                n == UniformSize(|src|)
    {
      var tt := if |src| < LIMIT_64K then ByU16 else ByU32;
      PrepareTable(|src|, tt);
      if |src| > MAX_INPUT_SIZE {
        return 0;
      }
      var c := SetupFor(tt);
      HashForInto(tt);
      ghost var t := hashTable[..];
      n := CompressBlock(src, dst, hashTable, HashFor(tt), c, Acceleration(acceleration));
      currentOffset, state := currentOffset + |src|, Used(tt);
      assert forall h :: 0 <= h < HASH_ENTRIES ==>
               hashTable[h] == hashTable[..][h] && (hashTable[..] == t ==> t[h] == hashTable[h]);
    }
  }

  /** Any number of blocks through one state: each decodes to its own input, with no history. */
  method CompressRun(inputs: seq<seq<byte>>, accelerations: seq<int>) returns (blocks: seq<seq<byte>>)
    requires |accelerations| == |inputs|
    requires forall i :: 0 <= i < |inputs| ==> |inputs[i]| <= MAX_INPUT_SIZE
    ensures |blocks| == |inputs|
    ensures forall i :: 0 <= i < |inputs| && !Vanishing(accelerations[i]) ==>
              Compresses(inputs[i], blocks[i])
  {
    hide Compresses, Vanishing, Uniform, NoRepeats, Decode;
    var stream := new Stream();
    blocks := [];
    for i := 0 to |inputs|
      invariant stream.Valid() && fresh(stream) && fresh(stream.hashTable) && |blocks| == i
      invariant forall k :: 0 <= k < i && !Vanishing(accelerations[k]) ==> Compresses(inputs[k], blocks[k])
    {
      var dst := new byte[CompressBound(|inputs[i]|)](_ => 0);
      var n := stream.CompressFastReset(inputs[i], dst, accelerations[i]);
      blocks := blocks + [dst[..n]];
    }
  }

  /** Input without repeats that is long enough to be searched exists: thirteen different bytes. */
  lemma {:induction false} SomeWithoutRepeats() returns (src: seq<byte>)
    ensures |src| == MIN_LENGTH && NoRepeats(src)
  {
    src := [1, 2, 3, 4, 5, 6, 7, 8, 9, 10, 11, 12, 13];
    forall p, q | 0 <= q < p && p + 4 <= |src|
      ensures !SameFour(src, p, q)
    {
      assert src[p..p + 4][0] == p + 1 && src[q..q + 4][0] == q + 1;
    }
  }

  /**
   The accelerations for which the compressor is right on every input are those that advance: with any other one every
   input without repeats is lost, through whatever state it goes.
   */
  method VanishingStep(stream: Stream, src: seq<byte>, dst: array<byte>, acceleration: int) returns (n: nat)
    requires stream.Valid() && dst.Length >= CompressBound(|src|)
    requires acceleration > 0 && acceleration % 0x400_0000 == 0
    requires MIN_LENGTH <= |src| <= MAX_INPUT_SIZE && NoRepeats(src)
    modifies stream, stream.hashTable, dst
    ensures 0 < n <= dst.Length && Decode(dst[..n], 0, []) != Some(src)
    ensures stream.Valid()
  {
    n := stream.CompressFastReset(src, dst, acceleration);
  }
}
