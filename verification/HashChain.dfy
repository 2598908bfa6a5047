/**
 The match index of the high-compression encoder: a hash table of latest positions and a table of 65536 distances that
 chains each position to the previous one with the same hash. Positions are indices into one text; the text starts at
 index `start`, which leaves at least 64 KB below it for entries of earlier texts.
 */
module HashChain {
  import opened Bytes
  import opened BlockFormat
  import opened BlockEncoder
  import BlockCompressor

  const HASH_SIZE := 0x8000
  const CHAIN_SIZE := 0x1_0000

  /** What is being compressed, and the hash of four bytes, about which nothing needs to be known. */
  datatype Text = Text(data: seq<byte>, start: nat, hash: seq<byte> -> nat) {
    ghost predicate Valid() {
      KB64 <= start && start + |data| < TWO32 && forall w :: hash(w) < HASH_SIZE
    }

    /** Every index below `n` has four bytes to hash. */
    predicate Readable(n: nat) {
      n <= start || n + 3 <= start + |data|
    }

    function Word(i: nat): seq<byte>
      requires start <= i && Readable(i + 1)
    {
      data[i - start..i - start + 4]
    }

    function HashAt(i: nat): nat
      requires start <= i && Readable(i + 1)
    {
      hash(Word(i))
    }
  }

  // ---------------------------------------------------------------- the naive scan

  /** The greatest index below `n` whose hash is `h`. */
  function Latest(t: Text, h: nat, n: nat): (r: Option<nat>)
    requires t.Readable(n)
    ensures r.Some? ==> t.start <= r.value < n && t.HashAt(r.value) == h
    decreases n
  {
    if n <= t.start then None else if t.HashAt(n - 1) == h then Some(n - 1) else Latest(t, h, n - 1)
  }

  /** All indices from `low` up to `n` whose hash is `h`, looking backwards. */
  function Scan(t: Text, h: nat, low: nat, n: nat): seq<nat>
    requires t.start <= low && t.Readable(n)
    decreases n
  {
    if n <= low then [] else if t.HashAt(n - 1) == h then [n - 1] + Scan(t, h, low, n - 1) else Scan(t, h, low, n - 1)
  }

  /** The scan finds exactly the indices with that hash, each once, in decreasing order. */
  lemma {:induction false} ScanIsExact(t: Text, h: nat, low: nat, n: nat)
    requires t.start <= low && t.Readable(n)
    ensures forall i :: i in Scan(t, h, low, n) <==> low <= i < n && t.HashAt(i) == h
    ensures forall a, b :: 0 <= a < b < |Scan(t, h, low, n)| ==> Scan(t, h, low, n)[a] > Scan(t, h, low, n)[b]
    decreases n
  {
    if n > low {
      ScanIsExact(t, h, low, n - 1);
      var s := Scan(t, h, low, n - 1);
      forall a, b | 0 <= a < b < |Scan(t, h, low, n)|
        ensures Scan(t, h, low, n)[a] > Scan(t, h, low, n)[b]
      {
        if t.HashAt(n - 1) == h && a == 0 {
          assert s[b - 1] in s;
        }
      }
    }
  }

  /** A scan starts with the latest index. */
  lemma {:induction false} ScanFromLatest(t: Text, h: nat, low: nat, n: nat)
    requires t.start <= low && t.Readable(n)
    ensures Scan(t, h, low, n) == match Latest(t, h, n) case None => [] case Some(k) => From(t, h, low, k)
    decreases n
  {
    if n > t.start && t.HashAt(n - 1) != h {
      ScanFromLatest(t, h, low, n - 1);
    }
  }

  /** What a walk that has arrived at `k` has still to visit. */
  function From(t: Text, h: nat, low: nat, k: nat): seq<nat>
    requires t.start <= low && t.Readable(k)
  {
    if k < low then [] else [k] + Scan(t, h, low, k)
  }

  // ---------------------------------------------------------------- the tables

  /** The distance stored for index `k`: to the previous index with its hash, but at most 65535. */
  function Delta(t: Text, k: nat): (d: nat)
    requires t.start <= k && t.Readable(k + 1)
    ensures 0 < d <= MAX_DISTANCE
  {
    match Latest(t, t.HashAt(k), k)
    case None => MAX_DISTANCE
    case Some(p) => Min(k - p, MAX_DISTANCE)
  }

  /** Entries of the hash table: the latest index, or something too old to matter. */
  ghost predicate HeadsOk(t: Text, heads: seq<nat>, n: nat)
    requires t.Readable(n)
  {
    |heads| == HASH_SIZE && forall h :: 0 <= h < HASH_SIZE ==>
      match Latest(t, h, n) case None => heads[h] + KB64 <= t.start case Some(k) => heads[h] == k
  }

  /** Entries of the last 65536 indices in the chain table. */
  ghost predicate LinksOk(t: Text, links: seq<nat>, n: nat)
    requires t.Readable(n)
  {
    |links| == CHAIN_SIZE && forall k :: t.start <= k < n <= k + CHAIN_SIZE ==> links[k % CHAIN_SIZE] == Delta(t, k)
  }

  lemma TablesFit(t: Text, heads: seq<nat>, links: seq<nat>, n: nat)
    requires t.Readable(n) && HeadsOk(t, heads, n) && LinksOk(t, links, n)
    ensures |heads| == HASH_SIZE && |links| == CHAIN_SIZE
  {
  }

  /** A difference of indices as the code computes it, in 32 bits. */
  function Sub32(a: nat, b: nat): nat {
    (a - b) % TWO32
  }

  lemma {:induction false} HeadsStep(t: Text, heads: seq<nat>, n: nat)
    requires t.Valid() && t.start <= n && t.Readable(n + 1) && HeadsOk(t, heads, n)
    ensures HeadsOk(t, heads[t.HashAt(n) := n], n + 1)
    ensures Min(Sub32(n, heads[t.HashAt(n)]), MAX_DISTANCE) == Delta(t, n)
  {
  }

  lemma {:induction false} LinksStep(t: Text, links: seq<nat>, n: nat)
    requires t.start <= n && t.Readable(n + 1) && LinksOk(t, links, n)
    ensures LinksOk(t, links[n % CHAIN_SIZE := Delta(t, n)], n + 1)
  {
    forall k | t.start <= k < n + 1 <= k + CHAIN_SIZE
      ensures links[n % CHAIN_SIZE := Delta(t, n)][k % CHAIN_SIZE] == Delta(t, k)
    {
      if k < n {
        OtherSlot(k, n);
      }
    }
  }

  /** Indices less than 65536 apart have different places in the chain table. */
  lemma OtherSlot(k: nat, n: nat)
    requires k < n < k + CHAIN_SIZE
    ensures k % CHAIN_SIZE != n % CHAIN_SIZE
  {
  }

  // ---------------------------------------------------------------- entering positions

  datatype Tables = Tables(heads: seq<nat>, links: seq<nat>)

  ghost predicate Sized(w: Tables) {
    |w.heads| == HASH_SIZE && |w.links| == CHAIN_SIZE
  }

  /** What entering one index does to the tables. */
  ghost function Enter(t: Text, w: Tables, idx: nat): (r: Tables)
    requires t.Valid() && t.start <= idx && t.Readable(idx + 1) && Sized(w)
    ensures Sized(r)
  {
    var h := t.HashAt(idx);
    Tables(w.heads[h := idx], w.links[idx % CHAIN_SIZE := Min(Sub32(idx, w.heads[h]), MAX_DISTANCE)])
  }

  ghost function EnterAll(t: Text, w: Tables, from: nat, target: nat): (r: Tables)
    requires t.Valid() && t.start <= from && t.Readable(target) && Sized(w)
    ensures Sized(r)
    decreases target - from
  {
    if from >= target then w else EnterAll(t, Enter(t, w, from), from + 1, target)
  }

  lemma EnterFirst(t: Text, w: Tables, from: nat, target: nat)
    requires t.Valid() && t.start <= from < target && t.Readable(target) && Sized(w)
    ensures EnterAll(t, w, from, target) == EnterAll(t, Enter(t, w, from), from + 1, target)
  {
  }

  lemma EnterNone(t: Text, w: Tables, from: nat, target: nat)
    requires t.Valid() && t.start <= from && target <= from && t.Readable(target) && Sized(w)
    ensures EnterAll(t, w, from, target) == w
  {
  }

  lemma {:induction false} EnterStep(t: Text, w: Tables, n: nat)
    requires t.Valid() && t.start <= n && t.Readable(n + 1) && HeadsOk(t, w.heads, n) && LinksOk(t, w.links, n)
    ensures HeadsOk(t, Enter(t, w, n).heads, n + 1) && LinksOk(t, Enter(t, w, n).links, n + 1)
  {
    HeadsStep(t, w.heads, n);
    LinksStep(t, w.links, n);
    hide HeadsOk, LinksOk, Delta;
    TablesFit(t, w.heads, w.links, n);
  }

  /** Entering index after index keeps the tables in agreement with the text. */
  lemma {:induction false} EntersForward(t: Text, w: Tables, from: nat, target: nat)
    requires t.Valid() && t.start <= from <= target && t.Readable(target)
    requires t.Readable(from) && HeadsOk(t, w.heads, from) && LinksOk(t, w.links, from)
    ensures HeadsOk(t, EnterAll(t, w, from, target).heads, target)
            && LinksOk(t, EnterAll(t, w, from, target).links, target)
    decreases target - from
  {
    if from < target {
      EnterStep(t, w, from);
      EnterFirst(t, w, from, target);
      hide HeadsOk, LinksOk, Enter;
      EntersForward(t, Enter(t, w, from), from + 1, target);
    }
  }

  /** The tables, and the position up to which they are meant to be complete. */
  datatype State = State(tables: Tables, next: nat)

  ghost predicate Shaped(t: Text, s: State) {
    t.Valid() && t.start <= s.next && t.Readable(s.next) && Sized(s.tables)
  }

  ghost predicate Agrees(t: Text, s: State) {
    t.Readable(s.next) && HeadsOk(t, s.tables.heads, s.next) && LinksOk(t, s.tables.links, s.next)
  }

  /** One call of LZ4HC_Insert. */
  ghost function Inserted(t: Text, s: State, target: nat): (r: State)
    requires Shaped(t, s) && t.start <= target && t.Readable(target)
    ensures Shaped(t, r)
  {
    State(EnterAll(t, s.tables, s.next, target), target)
  }

  /** The head of the last position entered lies ahead of any place before it. */
  lemma {:induction false} HeadsAhead(t: Text, heads: seq<nat>, b: nat, n: nat)
    requires t.Valid() && t.start <= b < n && t.Readable(n) && HeadsOk(t, heads, n)
    ensures t.Readable(b) && !HeadsOk(t, heads, b)
  {
    var h := t.HashAt(n - 1);
    assert Latest(t, h, n) == Some(n - 1);
    assert heads[h] == n - 1;
  }

  /** A call keeps the agreement exactly if it does not step back. */
  lemma {:induction false} InsertedAgrees(t: Text, s: State, target: nat)
    requires Shaped(t, s) && Agrees(t, s) && t.start <= target && t.Readable(target)
    ensures Agrees(t, Inserted(t, s, target)) <==> s.next <= target
  {
    if s.next <= target {
      EntersForward(t, s.tables, s.next, target);
    } else {
      EnterNone(t, s.tables, s.next, target);
      HeadsAhead(t, s.tables.heads, target, s.next);
    }
  }

  /** Targets that stay in the text. */
  predicate Targets(t: Text, targets: seq<nat>) {
    forall i :: 0 <= i < |targets| ==> t.start <= targets[i] && t.Readable(targets[i])
  }

  /** A series of calls. */
  ghost function InsertedAll(t: Text, s: State, targets: seq<nat>): (r: State)
    requires Shaped(t, s) && Targets(t, targets)
    ensures Shaped(t, r)
  {
    if targets == [] then s
    else Inserted(t, InsertedAll(t, s, targets[..|targets| - 1]), targets[|targets| - 1])
  }

  /** Never backwards, counted from `next`. */
  predicate Forward(next: nat, targets: seq<nat>) {
    forall i :: 0 <= i < |targets| ==> Before(next, targets, i) <= targets[i]
  }

  function Before(next: nat, targets: seq<nat>, i: nat): nat
    requires i <= |targets|
  {
    if i == 0 then next else targets[i - 1]
  }

  lemma {:induction false} NextIsLast(t: Text, s: State, targets: seq<nat>)
    requires Shaped(t, s) && Targets(t, targets)
    ensures InsertedAll(t, s, targets).next == Before(s.next, targets, |targets|)
  {
  }

  /** The tables agree with the text after every call. */
  ghost predicate Throughout(t: Text, s: State, targets: seq<nat>)
    requires Shaped(t, s) && Targets(t, targets)
  {
    forall i :: 0 <= i <= |targets| ==> Agrees(t, InsertedAll(t, s, targets[..i]))
  }

  lemma {:induction false} ThroughoutStep(t: Text, s: State, targets: seq<nat>, start: seq<nat>)
    requires Shaped(t, s) && Targets(t, targets) && targets != [] && start == targets[..|targets| - 1]
    ensures Throughout(t, s, targets) <==> Throughout(t, s, start) && Agrees(t, InsertedAll(t, s, targets))
    ensures Throughout(t, s, start) ==> Agrees(t, InsertedAll(t, s, start))
  {
    hide Agrees, InsertedAll;
    var k := |start|;
    assert targets[..k + 1] == targets && start[..k] == start;
    assert forall i :: 0 <= i <= k ==> start[..i] == targets[..i];
  }

  lemma {:induction false} ForwardStep(next: nat, targets: seq<nat>, start: seq<nat>)
    requires targets != [] && start == targets[..|targets| - 1]
    ensures Forward(next, targets) <==> Forward(next, start) && Before(next, start, |start|) <= targets[|start|]
  {
    var k := |start|;
    assert forall i :: 0 <= i <= k ==> Before(next, start, i) == Before(next, targets, i);
    assert forall i :: 0 <= i < k ==> start[i] == targets[i];
  }

  /** They do exactly if no target lies before the one it follows. */
  lemma {:induction false} AgreesThroughout(t: Text, s: State, targets: seq<nat>)
    requires Shaped(t, s) && Agrees(t, s) && Targets(t, targets)
    ensures Throughout(t, s, targets) <==> Forward(s.next, targets)
    decreases |targets|
  {
    if targets == [] {
      assert targets[..0] == [];
    } else {
      var start := targets[..|targets| - 1];
      AgreesThroughout(t, s, start);
      NextIsLast(t, s, start);
      ThroughoutStep(t, s, targets, start);
      ForwardStep(s.next, targets, start);
      hide Agrees, Throughout, Forward;
      if Throughout(t, s, start) {
        InsertedAgrees(t, InsertedAll(t, s, start), targets[|start|]);
      }
    }
  }

  // ---------------------------------------------------------------- stepping back

  /** `k` is the first of its hash from `b` on. */
  predicate FirstFrom(t: Text, b: nat, k: nat)
    requires t.start <= k && t.Readable(k + 1)
  {
    var p := Latest(t, t.HashAt(k), k);
    p.None? || p.value < b
  }

  /** The distance that index `k` gets when indices from `b` to `n` are entered a second time. */
  function Relinked(t: Text, b: nat, n: nat, k: nat): nat
    requires t.start <= k < n && t.Readable(n)
  {
    if !FirstFrom(t, b, k) then Delta(t, k)
    else if Latest(t, t.HashAt(k), n) == Some(k) then 0
    else MAX_DISTANCE
  }

  /** The tables while indices from `b` on are entered again, up to `i`. */
  ghost predicate Again(t: Text, w: Tables, b: nat, n: nat, i: nat)
    requires t.start <= b <= i <= n && t.Readable(n)
  {
    && Sized(w)
    && (forall h :: 0 <= h < HASH_SIZE ==> HeadAgain(t, w.heads, b, n, i, h))
    && (forall k :: b <= k < i <= k + CHAIN_SIZE ==> w.links[k % CHAIN_SIZE] == Relinked(t, b, n, k))
    && (forall k :: t.start <= k < b && n <= k + CHAIN_SIZE ==> w.links[k % CHAIN_SIZE] == Delta(t, k))
  }

  ghost predicate HeadAgain(t: Text, heads: seq<nat>, b: nat, n: nat, i: nat, h: nat)
    requires t.start <= b <= i <= n && t.Readable(n) && h < |heads|
  {
    var p := Latest(t, h, i);
    if p.Some? && p.value >= b then heads[h] == p.value
    else match Latest(t, h, n) case None => heads[h] + KB64 <= t.start case Some(k) => heads[h] == k
  }

  lemma {:induction false} LatestGrows(t: Text, h: nat, k: nat, n: nat)
    requires t.Readable(n) && k <= n && Latest(t, h, k).Some?
    ensures Latest(t, h, n).Some? && Latest(t, h, n).value >= Latest(t, h, k).value
    decreases n
  {
    if k < n {
      LatestGrows(t, h, k, n - 1);
    }
  }

  /** One more index entered again. */
  lemma {:induction false} LinkAgain(t: Text, w: Tables, b: nat, n: nat, i: nat)
    requires t.Valid() && t.start <= b <= i < n && t.Readable(n) && Sized(w)
             && HeadAgain(t, w.heads, b, n, i, t.HashAt(i))
    ensures Min(Sub32(i, w.heads[t.HashAt(i)]), MAX_DISTANCE) == Relinked(t, b, n, i)
  {
    var h := t.HashAt(i);
    assert Latest(t, h, i + 1) == Some(i);
    LatestGrows(t, h, i + 1, n);
    var last := Latest(t, h, n).value;
    assert w.heads[h] == if FirstFrom(t, b, i) then last else Latest(t, h, i).value;
    Distances(i, w.heads[h]);
    hide Sub32, HeadAgain;
  }

  /** Distances as they are stored: back to an earlier index, to the same one, or to a later one. */
  lemma Distances(i: nat, j: nat)
    requires KB64 <= i < TWO32 && j < TWO32
    ensures j <= i ==> Sub32(i, j) == i - j
    ensures j > i ==> Sub32(i, j) > MAX_DISTANCE
  {
  }

  lemma {:induction false} HeadsAgain(t: Text, w: Tables, b: nat, n: nat, i: nat, j: nat, heads: seq<nat>)
    requires t.Valid() && t.start <= b <= i < n && t.Readable(n) && Again(t, w, b, n, i)
    requires j == i + 1 && heads == w.heads[t.HashAt(i) := i]
    ensures forall h :: 0 <= h < HASH_SIZE ==> HeadAgain(t, heads, b, n, j, h)
  {
    forall h | 0 <= h < HASH_SIZE
      ensures HeadAgain(t, heads, b, n, j, h)
    {
      assert HeadAgain(t, w.heads, b, n, i, h);
    }
  }

  lemma {:induction false} AgainStep(t: Text, w: Tables, b: nat, n: nat, i: nat)
    requires t.Valid() && t.start <= b <= i < n && t.Readable(n) && Again(t, w, b, n, i)
    ensures Again(t, Enter(t, w, i), b, n, i + 1)
  {
    assert HeadAgain(t, w.heads, b, n, i, t.HashAt(i));
    LinkAgain(t, w, b, n, i);
    var w1 := Enter(t, w, i);
    HeadsAgain(t, w, b, n, i, i + 1, w1.heads);
    hide HeadAgain, Relinked;
    forall k | b <= k < i + 1 <= k + CHAIN_SIZE
      ensures w1.links[k % CHAIN_SIZE] == Relinked(t, b, n, k)
    {
      if k < i {
        OtherSlot(k, i);
      }
    }
    forall k | t.start <= k < b && n <= k + CHAIN_SIZE
      ensures w1.links[k % CHAIN_SIZE] == Delta(t, k)
    {
      OtherSlot(k, i);
    }
  }

  lemma {:induction false} EntersAgain(t: Text, w: Tables, b: nat, n: nat, i: nat)
    requires t.Valid() && t.start <= b <= i <= n && t.Readable(n) && Again(t, w, b, n, i)
    ensures Again(t, EnterAll(t, w, i, n), b, n, n)
    decreases n - i
  {
    if i < n {
      AgainStep(t, w, b, n, i);
      hide Again;
      EntersAgain(t, Enter(t, w, i), b, n, i + 1);
    }
  }

  /** What a target that steps back to `b` and one that returns to `n` leave behind. */
  lemma {:induction false} SteppedBack(t: Text, w: Tables, b: nat, n: nat)
    requires t.Valid() && t.start <= b <= n && t.Readable(n) && HeadsOk(t, w.heads, n) && LinksOk(t, w.links, n)
    ensures var w1 := EnterAll(t, w, b, n);
            && HeadsOk(t, w1.heads, n)
            && (forall k :: t.start <= k < n <= k + CHAIN_SIZE ==>
                  w1.links[k % CHAIN_SIZE] == if k < b then Delta(t, k) else Relinked(t, b, n, k))
            && (LinksOk(t, w1.links, n) <==> forall k :: b <= k < n <= k + CHAIN_SIZE && FirstFrom(t, b, k) ==>
                  Latest(t, t.HashAt(k), n) != Some(k) && Delta(t, k) == MAX_DISTANCE)
  {
    assert Again(t, w, b, n, b) by {
      StartAgain(t, w, b, n);
    }
    EntersAgain(t, w, b, n, b);
    AgainEnds(t, EnterAll(t, w, b, n), b, n);
  }

  lemma {:induction false} StartAgain(t: Text, w: Tables, b: nat, n: nat)
    requires t.Valid() && t.start <= b <= n && t.Readable(n) && HeadsOk(t, w.heads, n) && LinksOk(t, w.links, n)
    ensures Again(t, w, b, n, b)
  {
  }

  lemma {:induction false} AgainEnds(t: Text, w: Tables, b: nat, n: nat)
    requires t.Valid() && t.start <= b <= n && t.Readable(n) && Again(t, w, b, n, n)
    ensures HeadsOk(t, w.heads, n)
    ensures forall k :: t.start <= k < n <= k + CHAIN_SIZE ==>
              w.links[k % CHAIN_SIZE] == if k < b then Delta(t, k) else Relinked(t, b, n, k)
    ensures LinksOk(t, w.links, n) <==> forall k :: b <= k < n <= k + CHAIN_SIZE && FirstFrom(t, b, k) ==>
              Latest(t, t.HashAt(k), n) != Some(k) && Delta(t, k) == MAX_DISTANCE
  {
    forall h | 0 <= h < HASH_SIZE
      ensures match Latest(t, h, n) case None => w.heads[h] + KB64 <= t.start case Some(k) => w.heads[h] == k
    {
      assert HeadAgain(t, w.heads, b, n, n, h);
    }
    if LinksOk(t, w.links, n) {
      forall k | b <= k < n <= k + CHAIN_SIZE && FirstFrom(t, b, k)
        ensures Latest(t, t.HashAt(k), n) != Some(k) && Delta(t, k) == MAX_DISTANCE
      {
        assert w.links[k % CHAIN_SIZE] == Relinked(t, b, n, k) == Delta(t, k);
      }
    }
  }

  // ---------------------------------------------------------------- walking a chain

  /** The lowest index a match may start at: not before the text, and not further back than an offset can say. */
  function Lowest(t: Text, ip: nat): (low: nat)
    requires t.start <= ip
    ensures t.start <= low <= ip && ip - low <= MAX_DISTANCE
    ensures low == t.start || ip - low == MAX_DISTANCE
  {
    if t.start + KB64 > ip then t.start else ip - MAX_DISTANCE
  }

  /** A position a match at `ip` may refer to: of this text, and as far back as an offset can say. */
  predicate InWindow(t: Text, ip: nat, k: nat) {
    t.start <= k < ip && ip - k <= MAX_DISTANCE
  }

  /** The first position of the text is in the window up to 65535 bytes further on, and drops out at the next one. */
  lemma WindowEdge(t: Text)
    ensures Lowest(t, t.start + MAX_DISTANCE) == t.start && InWindow(t, t.start + MAX_DISTANCE, t.start)
    ensures Lowest(t, t.start + KB64) == t.start + 1 && !InWindow(t, t.start + KB64, t.start)
    ensures InWindow(t, t.start + KB64, t.start + 1)
  {
  }

  /** What a search at `ip` looks at. */
  ghost function Candidates(t: Text, ip: nat): seq<nat>
    requires t.start <= ip && t.Readable(ip + 1)
  {
    Scan(t, t.HashAt(ip), Lowest(t, ip), ip)
  }

  /** These are the positions of the window with the hash of `ip`, each once, the nearest one first. */
  lemma {:induction false} CandidatesAre(t: Text, ip: nat)
    requires t.start <= ip && t.Readable(ip + 1)
    ensures forall k :: k in Candidates(t, ip) <==> InWindow(t, ip, k) && t.HashAt(k) == t.HashAt(ip)
    ensures forall i, j :: 0 <= i < j < |Candidates(t, ip)| ==> Candidates(t, ip)[i] > Candidates(t, ip)[j]
  {
    ScanIsExact(t, t.HashAt(ip), Lowest(t, ip), ip);
  }

  /**
   Following a link leads to the next index of the scan, or out of the window: the limit on distances does no harm.
   */
  lemma {:induction false} FollowLink(t: Text, ip: nat, k: nat)
    requires t.Valid() && t.Readable(ip) && t.start <= k < ip && Lowest(t, ip) <= k
    ensures Delta(t, k) <= k
    ensures From(t, t.HashAt(k), Lowest(t, ip), k) == [k] + From(t, t.HashAt(k), Lowest(t, ip), k - Delta(t, k))
    ensures k - Delta(t, k) >= Lowest(t, ip) ==> t.HashAt(k - Delta(t, k)) == t.HashAt(k)
  {
    ScanFromLatest(t, t.HashAt(k), Lowest(t, ip), k);
  }

  /** Where a walk starts: at the latest index, if that is in the window. */
  lemma {:induction false} StartWalk(t: Text, heads: seq<nat>, ip: nat)
    requires t.Valid() && t.start <= ip && t.Readable(ip + 1) && HeadsOk(t, heads, ip)
    ensures |heads| == HASH_SIZE && t.HashAt(ip) < HASH_SIZE
    ensures var h, low := t.HashAt(ip), Lowest(t, ip);
            && heads[h] < ip && (heads[h] >= low ==> t.HashAt(heads[h]) == h)
            && Scan(t, h, low, ip) == From(t, h, low, heads[h])
  {
    ScanFromLatest(t, t.HashAt(ip), Lowest(t, ip), ip);
  }

  lemma {:induction false} LinkAt(t: Text, links: seq<nat>, ip: nat, k: nat)
    requires t.start <= k < ip && Lowest(t, ip) <= k && t.Readable(ip) && LinksOk(t, links, ip)
    ensures |links| == CHAIN_SIZE && links[k % CHAIN_SIZE] == Delta(t, k)
  {
  }

  lemma Onward(all: seq<nat>, visited: seq<nat>, k: nat, rest: seq<nat>, next: seq<nat>)
    requires all == visited + rest && rest == [k] + next
    ensures all == visited + [k] + next
  {
  }

  /** How many bytes agree at `p` and `q`, up to `limit`. */
  function Common(src: seq<byte>, p: nat, q: nat, limit: nat): (n: nat)
    requires q <= p <= limit <= |src|
    ensures p + n <= limit && Same(src, p, q, n)
    ensures p + n < limit ==> src[p + n] != src[q + n]
    decreases limit - p
  {
    if p < limit && src[p] == src[q] then 1 + Common(src, p + 1, q + 1, limit) else 0
  }

  lemma {:induction false} CommonIs(src: seq<byte>, p: nat, q: nat, limit: nat, n: nat)
    requires q <= p && p + n <= limit <= |src| && Same(src, p, q, n) && (p + n < limit ==> src[p + n] != src[q + n])
    ensures Common(src, p, q, limit) == n
  {
  }

  lemma {:induction false} SamePieces(src: seq<byte>, p: nat, q: nat, a: nat, b: nat)
    requires Same(src, p, q, a) && Same(src, p + a, q + a, b)
    ensures Same(src, p, q, a + b)
  {
  }

  lemma {:induction false} OneByte(src: seq<byte>, p: nat, q: nat, n: nat, i: nat)
    requires q <= p && i < n && p + n <= |src| && src[p + i] != src[q + i]
    ensures !Same(src, p, q, n)
  {
  }

  lemma {:induction false} FirstWord(src: seq<byte>, p: nat, q: nat)
    requires q <= p && p + MINMATCH <= |src|
    ensures src[q..q + 4] == src[p..p + 4] <==> Same(src, p, q, MINMATCH)
  {
    SameWord(src, p, q, 0, MINMATCH);
  }

  /** A position before `ip` that can be compared with it, up to `limit`. */
  predicate Comparable(t: Text, ip: nat, k: nat, limit: nat) {
    t.start <= k < ip && ip + MINMATCH <= limit < t.start + |t.data|
  }

  function MatchLength(t: Text, ip: nat, k: nat, limit: nat): nat
    requires Comparable(t, ip, k, limit)
  {
    Common(t.data, ip - t.start, k - t.start, limit - t.start)
  }

  /** No position of `tried` has a longer match than `len`. */
  ghost predicate NoneLonger(t: Text, ip: nat, limit: nat, tried: seq<nat>, len: nat) {
    forall i :: 0 <= i < |tried| ==> Comparable(t, ip, tried[i], limit) && MatchLength(t, ip, tried[i], limit) <= len
  }

  /** How many bytes agree before `p` and `q`, of `n`. */
  function Back(src: seq<byte>, p: nat, q: nat, n: nat): nat
    requires q <= p <= |src| && n <= q
    decreases n
  {
    if n > 0 && src[p - 1] == src[q - 1] then 1 + Back(src, p - 1, q - 1, n - 1) else 0
  }

  lemma {:induction false} BackIs(src: seq<byte>, p: nat, q: nat, n: nat)
    requires q <= p <= |src| && n <= q
    ensures var r := Back(src, p, q, n);
            && r <= n && Same(src, p - r, q - r, r)
            && (r < n ==> src[p - r - 1] != src[q - r - 1])
    decreases n
  {
    if n > 0 && src[p - 1] == src[q - 1] {
      BackIs(src, p - 1, q - 1, n - 1);
    }
  }

  /** Length of a match at `p` and `q` with the equal bytes before it, down to `low`; 0 without four bytes at `p`. */
  function WideLength(src: seq<byte>, p: nat, q: nat, low: nat, limit: nat): nat
    requires q <= p <= limit <= |src| && low <= p
  {
    var n := Common(src, p, q, limit);
    if n < MINMATCH then 0 else n + Back(src, p, q, Min(p - low, q))
  }

  lemma {:induction false} WideIsSame(src: seq<byte>, p: nat, q: nat, low: nat, limit: nat)
    requires q <= p <= limit <= |src| && low <= p && WideLength(src, p, q, low, limit) > 0
    ensures var r := Back(src, p, q, Min(p - low, q));
            && p - low >= r && q >= r && p - r + WideLength(src, p, q, low, limit) <= limit
            && Same(src, p - r, q - r, WideLength(src, p, q, low, limit))
  {
    hide Common, Back;
    var n, r := Common(src, p, q, limit), Back(src, p, q, Min(p - low, q));
    BackIs(src, p, q, Min(p - low, q));
    SamePieces(src, p - r, q - r, r, n);
  }

  function WideAt(t: Text, ip: nat, k: nat, low: nat, limit: nat): nat
    requires Comparable(t, ip, k, limit) && t.start <= low <= ip
  {
    WideLength(t.data, ip - t.start, k - t.start, low - t.start, limit - t.start)
  }

  /** A match of `len` bytes that starts at `start`, at the distance of `ip` and `k`. */
  ghost predicate Starts(t: Text, ip: nat, k: nat, low: nat, limit: nat, start: int, len: nat)
    requires Comparable(t, ip, k, limit)
  {
    && low <= start <= ip && t.start <= start - (ip - k) && start + len <= limit
    && Same(t.data, start - t.start, start - (ip - k) - t.start, len)
  }

  /** No position of `tried` has a wider match than `len`. */
  ghost predicate NoneWider(t: Text, ip: nat, low: nat, limit: nat, tried: seq<nat>, len: nat)
    requires t.start <= low <= ip
  {
    forall i :: 0 <= i < |tried| ==> Comparable(t, ip, tried[i], limit) && WideAt(t, ip, tried[i], low, limit) <= len
  }

  /** A match of `len` bytes between `start` and `at`: that of a position in the window, as wide as can be. */
  ghost predicate Found(t: Text, ip: nat, low: nat, limit: nat, at: nat, start: nat, len: nat)
    requires t.start <= low <= ip && ip + MINMATCH <= limit < t.start + |t.data|
  {
    && at < start <= ip
    && var k := at + (ip - start);
       && InWindow(t, ip, k) && WideAt(t, ip, k, low, limit) == len && Starts(t, ip, k, low, limit, start, len)
  }

  class Index {
    const t: Text
    const heads: array<nat>
    const links: array<nat>
    var nextToUpdate: nat

    ghost predicate Valid()
      reads this, heads, links
    {
      && t.Valid() && heads != links && t.start <= nextToUpdate && t.Readable(nextToUpdate)
      && HeadsOk(t, heads[..], nextToUpdate) && LinksOk(t, links[..], nextToUpdate)
    }

    /** LZ4HC_init on tables whose entries all lie 64 KB below the new text, such as cleared ones. */
    constructor (t: Text, heads: array<nat>, links: array<nat>)
      requires t.Valid() && heads != links && heads.Length == HASH_SIZE && links.Length == CHAIN_SIZE
      requires forall h :: 0 <= h < HASH_SIZE ==> heads[h] + KB64 <= t.start
      ensures Valid() && this.t == t && nextToUpdate == t.start && this.heads == heads && this.links == links
    {
      this.t, this.heads, this.links, nextToUpdate := t, heads, links, t.start;
    }

    /** One turn of the loop in LZ4HC_Insert. */
    method InsertOne(idx: nat)
      requires t.Valid() && t.start <= idx && t.Readable(idx + 1) && heads.Length == HASH_SIZE
               && links.Length == CHAIN_SIZE && heads != links
      modifies heads, links
      ensures var h := t.HashAt(idx);
              && heads[..] == old(heads[..])[h := idx]
              && links[..] == old(links[..])[idx % CHAIN_SIZE := Min(Sub32(idx, old(heads[h])), MAX_DISTANCE)]
    {
      var h := t.HashAt(idx);
      var delta := Sub32(idx, heads[h]);
      if delta > MAX_DISTANCE {
        delta := MAX_DISTANCE;
      }
      links[idx % CHAIN_SIZE] := delta;
      heads[h] := idx;
    }

    /** Tables of the right sizes, whatever they hold. */
    ghost predicate Shaped()
      reads this
    {
      && t.Valid() && heads != links && heads.Length == HASH_SIZE && links.Length == CHAIN_SIZE
      && t.start <= nextToUpdate && t.Readable(nextToUpdate)
    }

    /** LZ4HC_Insert: enter every position from nextToUpdate to `target`, which may also lie before it. */
    method Insert(target: nat)
      requires Shaped() && t.start <= target && t.Readable(target)
      modifies this, heads, links
      ensures Shaped() && nextToUpdate == target
      ensures Tables(heads[..], links[..]) ==
              EnterAll(t, Tables(old(heads[..]), old(links[..])), old(nextToUpdate), target)
      ensures old(Valid()) ==> (Valid() <==> old(nextToUpdate) <= target)
    {
      hide EnterAll, HeadsOk, LinksOk;
      ghost var w0 := Tables(heads[..], links[..]);
      var idx := nextToUpdate;
      if old(Valid()) {
        InsertedAgrees(t, State(w0, idx), target);
      }
      while idx < target
        invariant t.start <= idx && t.Readable(idx) && (idx <= target || idx == old(nextToUpdate))
        invariant EnterAll(t, Tables(heads[..], links[..]), idx, target) == EnterAll(t, w0, old(nextToUpdate), target)
      {
        EnterFirst(t, Tables(heads[..], links[..]), idx, target);
        InsertOne(idx);
        idx := idx + 1;
      }
      EnterNone(t, Tables(heads[..], links[..]), idx, target);
      nextToUpdate := target;
    }

    /** The walk of LZ4HC_InsertAndGetWiderMatch: it visits what the naive scan finds, up to a number of attempts. */
    method Walk(ip: nat, attempts: nat) returns (visited: seq<nat>)
      requires Valid() && nextToUpdate == ip && t.Readable(ip + 1)
      ensures visited == Candidates(t, ip)[..Min(attempts, |Candidates(t, ip)|)]
      ensures |visited| < attempts ==>
                forall k :: k in visited <==> InWindow(t, ip, k) && t.HashAt(k) == t.HashAt(ip)
    {
      hide Scan, HeadsOk, LinksOk, Lowest;
      visited := WalkScan(ip, attempts);
      CandidatesAre(t, ip);
    }

    method WalkScan(ip: nat, attempts: nat) returns (visited: seq<nat>)
      requires Valid() && nextToUpdate == ip && t.Readable(ip + 1)
      ensures var all := Scan(t, t.HashAt(ip), Lowest(t, ip), ip); visited == all[..Min(attempts, |all|)]
    {
      var low, h := Lowest(t, ip), t.HashAt(ip);
      ghost var all := Scan(t, h, low, ip);
      StartWalk(t, heads[..], ip);
      TablesFit(t, heads[..], links[..], ip);
      var k: nat := heads[h];
      visited := [];
      assert all == visited + From(t, h, low, k);
      while k >= low && |visited| < attempts
        invariant k < ip && all == visited + From(t, h, low, k) && |visited| <= attempts
        invariant k >= low ==> t.HashAt(k) == h
        decreases k
      {
        hide HeadsOk, LinksOk, Scan, From, Delta, Latest, Lowest;
        FollowLink(t, ip, k);
        LinkAt(t, links[..], ip, k);
        Onward(all, visited, k, From(t, h, low, k), From(t, h, low, k - Delta(t, k)));
        visited := visited + [k];
        k := k - links[k % CHAIN_SIZE];
      }
    }

    /**
     The search of LZ4HC_InsertAndGetWiderMatch in one segment, without the pattern and chain-swap heuristics. A match
     may start before `ip`, but not before `low`; only matches longer than `longest0` count.
     */
    method FindWider(ip: nat, low: nat, limit: nat, longest0: nat, attempts: nat)
      returns (longest: nat, at: nat, start: nat)
      requires Valid() && nextToUpdate == ip && t.start <= low <= ip && ip + MINMATCH <= limit < t.start + |t.data|
      requires ip - low < longest0 <= limit - low
      ensures longest >= longest0
      ensures longest > longest0 ==> Found(t, ip, low, limit, at, start, longest)
      ensures var all := Candidates(t, ip);
              && NoneWider(t, ip, low, limit, all[..Min(attempts, |all|)], longest)
              && (attempts >= |all| ==> NoWiderMatch(t, ip, low, limit, longest))
    {
      hide Scan, Candidates, WideLength, Common, Latest, HeadsOk, LinksOk, NoneWider, NoWiderMatch;
      ghost var all := Candidates(t, ip);
      CandidatesAre(t, ip);
      var visited := Walk(ip, attempts);
      assert forall i :: 0 <= i < |visited| ==> visited[i] in all;
      var k;
      longest, k, start := Widest(t, ip, low, limit, longest0, visited);
      at := if longest > longest0 then k - (ip - start) else 0;
      if attempts >= |all| {
        assert all[..|all|] == all;
        AllTried(t, ip, low, limit, longest);
      }
    }

    /** LZ4HC_InsertAndFindBestMatch: nothing before `ip`, and any match will do. */
    method FindBest(ip: nat, limit: nat, attempts: nat) returns (longest: nat, at: nat)
      requires Valid() && nextToUpdate == ip && ip + MINMATCH <= limit < t.start + |t.data|
      ensures longest >= MINMATCH - 1
      ensures longest >= MINMATCH ==> InWindow(t, ip, at) && MatchLength(t, ip, at, limit) == longest
      ensures var all := Candidates(t, ip);
              && NoneLonger(t, ip, limit, all[..Min(attempts, |all|)], longest)
              && (attempts >= |all| ==> NoWiderMatch(t, ip, ip, limit, longest))
    {
      hide Candidates, Common, Latest, HeadsOk, LinksOk, WideAt, NoWiderMatch;
      var start;
      longest, at, start := FindWider(ip, ip, limit, MINMATCH - 1, attempts);
      forall k | t.start <= k < ip
        ensures var n := MatchLength(t, ip, k, limit); WideAt(t, ip, k, ip, limit) == if n < MINMATCH then 0 else n
      {
        NothingBefore(t, ip, k, limit);
      }
    }
  }

  lemma {:induction false} NothingBefore(t: Text, ip: nat, k: nat, limit: nat)
    requires Comparable(t, ip, k, limit)
    ensures var n := MatchLength(t, ip, k, limit); WideAt(t, ip, k, ip, limit) == if n < MINMATCH then 0 else n
  {
  }

  /** LZ4HC_countBack: equal bytes before `p` and `q`, as far as both lower limits allow. */
  method CountBack(src: seq<byte>, p: nat, q: nat, low: nat) returns (back: nat)
    requires q <= p <= |src| && low <= p
    ensures back == Back(src, p, q, Min(p - low, q))
  {
    hide Back, Same;
    var n := Min(p - low, q);
    back := 0;
    while back < n && src[p - back - 1] == src[q - back - 1]
      invariant back <= n && Back(src, p, q, n) == back + Back(src, p - back, q - back, n - back)
    {
      BackStep(src, p - back, q - back, n - back);
      back := back + 1;
    }
    BackEnds(src, p - back, q - back, n - back);
  }

  lemma {:induction false} BackStep(src: seq<byte>, p: nat, q: nat, n: nat)
    requires q <= p <= |src| && 0 < n <= q && src[p - 1] == src[q - 1]
    ensures Back(src, p, q, n) == 1 + Back(src, p - 1, q - 1, n - 1)
  {
  }

  lemma {:induction false} BackEnds(src: seq<byte>, p: nat, q: nat, n: nat)
    requires q <= p <= |src| && n <= q && (n > 0 ==> src[p - 1] != src[q - 1])
    ensures Back(src, p, q, n) == 0
  {
  }

  /**
   Length of the match at `p` and `q` with what precedes it down to `low`, unless it is not longer than `longest`;
   mostly the two bytes that would make it longer tell.
   */
  method Measure(src: seq<byte>, p: nat, q: nat, low: nat, limit: nat, longest: nat) returns (len: nat, back: nat)
    requires q <= p && p + MINMATCH <= limit < |src| && low <= p && p - low < longest <= limit - low
    ensures var n := WideLength(src, p, q, low, limit); if n > longest then len == n else len <= longest
    ensures len > longest ==> back == Back(src, p, q, Min(p - low, q))
  {
    hide Same, Common, Back, WideLength;
    len, back := 0, 0;
    if WideLength(src, p, q, low, limit) > longest {
      WideTail(src, p, q, low, limit, longest);
    }
    var a, b := low + longest - 1, q + longest - 1 - (p - low);
    if src[a] == src[b] && src[a + 1] == src[b + 1] {
      len, back := MeasureWord(src, p, q, low, limit);
    }
  }

  method MeasureWord(src: seq<byte>, p: nat, q: nat, low: nat, limit: nat) returns (len: nat, back: nat)
    requires q <= p && p + MINMATCH <= limit < |src| && low <= p
    ensures len == WideLength(src, p, q, low, limit) && (len > 0 ==> back == Back(src, p, q, Min(p - low, q)))
  {
    hide Same, Common, Back, WideLength;
    if src[q..q + 4] != src[p..p + 4] {
      NotWide(src, p, q, low, limit);
      return 0, 0;
    }
    FirstWord(src, p, q);
    back := CountBack(src, p, q, low);
    var n := Count(src, p + MINMATCH, q + MINMATCH, limit);
    WideIs(src, p, q, low, limit, n);
    len := MINMATCH + n + back;
  }

  lemma {:induction false} NotWide(src: seq<byte>, p: nat, q: nat, low: nat, limit: nat)
    requires q <= p && p + MINMATCH <= limit < |src| && low <= p && src[q..q + 4] != src[p..p + 4]
    ensures WideLength(src, p, q, low, limit) == 0
  {
    FirstWord(src, p, q);
    TooShort(src, p, q, limit, MINMATCH);
  }

  lemma {:induction false} WideIs(src: seq<byte>, p: nat, q: nat, low: nat, limit: nat, n: nat)
    requires q <= p && p + MINMATCH + n <= limit < |src| && low <= p
    requires Same(src, p, q, MINMATCH) && Same(src, p + MINMATCH, q + MINMATCH, n)
    requires p + MINMATCH + n < limit ==> src[p + MINMATCH + n] != src[q + MINMATCH + n]
    ensures WideLength(src, p, q, low, limit) == MINMATCH + n + Back(src, p, q, Min(p - low, q))
  {
    CommonFrom(src, p, q, limit, n);
  }

  /** A wide match longer than `longest` covers the two bytes that decide. */
  lemma {:induction false} WideTail(src: seq<byte>, p: nat, q: nat, low: nat, limit: nat, longest: nat)
    requires q <= p && p + MINMATCH <= limit < |src| && low <= p && p - low < longest <= limit - low
    requires WideLength(src, p, q, low, limit) > longest
    ensures var a, b := low + longest - 1, q + longest - 1 - (p - low); src[a] == src[b] && src[a + 1] == src[b + 1]
  {
    hide Common, Back;
    var n, r := Common(src, p, q, limit), Back(src, p, q, Min(p - low, q));
    BackIs(src, p, q, Min(p - low, q));
    SamePieces(src, p - r, q - r, r, n);
    var i := low + longest - 1 - (p - r);
    assert src[p - r + i] == src[q - r + i] && src[p - r + (i + 1)] == src[q - r + (i + 1)];
  }

  lemma {:induction false} CommonFrom(src: seq<byte>, p: nat, q: nat, limit: nat, n: nat)
    requires q <= p && p + MINMATCH + n <= limit <= |src| && Same(src, p, q, MINMATCH)
             && Same(src, p + MINMATCH, q + MINMATCH, n)
    requires p + MINMATCH + n < limit ==> src[p + MINMATCH + n] != src[q + MINMATCH + n]
    ensures Common(src, p, q, limit) == MINMATCH + n
  {
    SamePieces(src, p, q, MINMATCH, n);
    CommonIs(src, p, q, limit, MINMATCH + n);
  }

  method MeasureAt(t: Text, ip: nat, k: nat, low: nat, limit: nat, longest: nat) returns (len: nat, back: nat)
    requires Comparable(t, ip, k, limit) && t.start <= low <= ip && ip - low < longest <= limit - low
    ensures var n := WideAt(t, ip, k, low, limit); if n > longest then len == n else len <= longest
    ensures len > longest ==> Starts(t, ip, k, low, limit, ip - back, len)
  {
    hide WideLength, Common, Back, Same;
    len, back := Measure(t.data, ip - t.start, k - t.start, low - t.start, limit - t.start, longest);
    if len > longest {
      WideIsSame(t.data, ip - t.start, k - t.start, low - t.start, limit - t.start);
    }
  }

  /** The widest of some candidates. */
  method Widest(t: Text, ip: nat, low: nat, limit: nat, longest0: nat, visited: seq<nat>)
    returns (longest: nat, k: nat, start: nat)
    requires t.start <= low <= ip && ip + MINMATCH <= limit && ip - low < longest0 <= limit - low
    requires forall i :: 0 <= i < |visited| ==> Comparable(t, ip, visited[i], limit)
    ensures longest >= longest0 && NoneWider(t, ip, low, limit, visited, longest)
    ensures longest > longest0 ==>
              k in visited && WideAt(t, ip, k, low, limit) == longest && Starts(t, ip, k, low, limit, start, longest)
  {
    hide WideAt, Starts;
    longest, k, start := longest0, 0, ip;
    var i := 0;
    while i < |visited|
      invariant i <= |visited| && longest0 <= longest <= limit - low
      invariant forall j :: 0 <= j < i ==> WideAt(t, ip, visited[j], low, limit) <= longest
      invariant longest > longest0 ==>
                  && k in visited && WideAt(t, ip, k, low, limit) == longest
                  && Starts(t, ip, k, low, limit, start, longest)
    {
      var len, back := MeasureAt(t, ip, visited[i], low, limit, longest);
      if len > longest {
        StartsInside(t, ip, visited[i], low, limit, ip - back, len);
        longest, k, start := len, visited[i], ip - back;
      }
      i := i + 1;
    }
  }

  lemma StartsInside(t: Text, ip: nat, k: nat, low: nat, limit: nat, start: int, len: nat)
    requires Comparable(t, ip, k, limit) && Starts(t, ip, k, low, limit, start, len)
    ensures low <= start && len <= limit - low
  {
  }

  lemma {:induction false} TooShort(src: seq<byte>, p: nat, q: nat, limit: nat, n: nat)
    requires q <= p && p + n <= |src| && p <= limit <= |src| && !Same(src, p, q, n)
    ensures Common(src, p, q, limit) < n
  {
  }

  /** A match of `len` bytes at `s`, `d` back, with the four bytes at `ip`, all of it between `low` and `limit`. */
  ghost predicate IsMatch(t: Text, ip: nat, low: nat, limit: nat, s: nat, d: nat, len: nat) {
    && low <= s <= ip && ip + MINMATCH <= s + len <= limit < t.start + |t.data|
    && 0 < d <= MAX_DISTANCE && t.start + d <= s
    && Same(t.data, s - t.start, s - d - t.start, len)
  }

  /** No match there is longer than `len`. */
  ghost predicate NoWiderMatch(t: Text, ip: nat, low: nat, limit: nat, len: nat) {
    forall s: nat, d: nat, n: nat :: IsMatch(t, ip, low, limit, s, d, n) ==> n <= len
  }

  /** A match is part of the widest one at its distance. */
  lemma {:induction false} MatchIsCovered(t: Text, ip: nat, low: nat, limit: nat, s: nat, d: nat, n: nat)
    requires t.start <= low <= ip && ip + MINMATCH <= limit < t.start + |t.data| && IsMatch(t, ip, low, limit, s, d, n)
    ensures InWindow(t, ip, ip - d) && MatchLength(t, ip, ip - d, limit) >= s + n - ip
    ensures WideAt(t, ip, ip - d, low, limit) >= n
  {
    hide Common, Back, Same;
    var p, q, x := ip - t.start, ip - d - t.start, s - t.start;
    Forwards(t.data, p, q, x, n, limit - t.start);
    Backwards(t.data, p, q, x, n, Min(ip - low, q));
  }

  lemma {:induction false} Forwards(src: seq<byte>, p: nat, q: nat, x: nat, n: nat, limit: nat)
    requires q <= p <= limit <= |src| && p - q <= x <= p <= x + n <= limit && Same(src, x, x - (p - q), n)
    ensures Common(src, p, q, limit) >= x + n - p
  {
    hide Common;
  }

  lemma {:induction false} Backwards(src: seq<byte>, p: nat, q: nat, x: nat, n: nat, most: nat)
    requires q <= p <= |src| && most <= q && p - q <= x <= p <= x + n && Same(src, x, x - (p - q), n) && p - x <= most
    ensures Back(src, p, q, most) >= p - x
  {
    hide Back;
    BackIs(src, p, q, most);
  }

  /** Positions with the same four bytes have the same hash, so the scan misses no match. */
  lemma {:induction false} AllTried(t: Text, ip: nat, low: nat, limit: nat, longest: nat)
    requires t.start <= low <= ip && ip + MINMATCH <= limit < t.start + |t.data|
    requires NoneWider(t, ip, low, limit, Candidates(t, ip), longest)
    ensures NoWiderMatch(t, ip, low, limit, longest)
  {
    hide IsMatch, NoneWider;
    forall s: nat, d: nat, n: nat | IsMatch(t, ip, low, limit, s, d, n)
      ensures n <= longest
    {
      MatchTried(t, ip, low, limit, longest, s, d, n);
    }
  }

  lemma {:induction false} MatchTried(t: Text, ip: nat, low: nat, limit: nat, longest: nat, s: nat, d: nat, n: nat)
    requires t.start <= low <= ip && ip + MINMATCH <= limit < t.start + |t.data|
    requires NoneWider(t, ip, low, limit, Candidates(t, ip), longest) && IsMatch(t, ip, low, limit, s, d, n)
    ensures n <= longest
  {
    hide Candidates, Common, Back, WideAt, IsMatch, MatchLength;
    CandidatesAre(t, ip);
    MatchIsCovered(t, ip, low, limit, s, d, n);
    MatchReaches(t, ip, low, limit, s, d, n);
    SameFour(t, ip, ip - d, limit);
    assert ip - d in Candidates(t, ip);
  }

  lemma MatchReaches(t: Text, ip: nat, low: nat, limit: nat, s: nat, d: nat, n: nat)
    requires IsMatch(t, ip, low, limit, s, d, n)
    ensures s + n - ip >= MINMATCH && Comparable(t, ip, ip - d, limit)
  {
  }

  lemma {:induction false} SameFour(t: Text, ip: nat, k: nat, limit: nat)
    requires Comparable(t, ip, k, limit) && MatchLength(t, ip, k, limit) >= MINMATCH
    ensures t.HashAt(k) == t.HashAt(ip)
  {
    SameWord(t.data, ip - t.start, k - t.start, 0, MINMATCH);
  }

  /**
   Two calls of Insert, back to `b` and forward again: the heads are right, and so are the links exactly if every hash
   whose positions are entered again has more than one of them, and none before them within reach.
   */
  method BackAndForth(x: Index, b: nat)
    requires x.Valid() && x.t.start <= b <= x.nextToUpdate
    modifies x, x.heads, x.links
    ensures x.nextToUpdate == old(x.nextToUpdate) && x.Shaped() && HeadsOk(x.t, x.heads[..], x.nextToUpdate)
    ensures x.Valid() <==> forall k :: b <= k < x.nextToUpdate <= k + CHAIN_SIZE && FirstFrom(x.t, b, k) ==>
              Latest(x.t, x.t.HashAt(k), x.nextToUpdate) != Some(k) && Delta(x.t, k) == MAX_DISTANCE
    ensures forall k :: b <= k < x.nextToUpdate <= k + CHAIN_SIZE ==>
              x.links[k % CHAIN_SIZE] == Relinked(x.t, b, x.nextToUpdate, k)
  {
    var n := x.nextToUpdate;
    ghost var w := Tables(x.heads[..], x.links[..]);
    TablesFit(x.t, x.heads[..], x.links[..], n);
    SteppedBack(x.t, w, b, n);
    EnterNone(x.t, w, n, b);
    hide EnterAll, HeadsOk, LinksOk, Relinked, Delta, Latest;
    x.Insert(b);
    x.Insert(n);
  }

  /** A series of calls on an index, which is right after each of them exactly if they never step back. */
  method InsertSeries(x: Index, targets: seq<nat>)
    requires x.Valid() && Targets(x.t, targets)
    modifies x, x.heads, x.links
    ensures x.Shaped()
    ensures var s := State(Tables(old(x.heads[..]), old(x.links[..])), old(x.nextToUpdate));
            && Shaped(x.t, s) && State(Tables(x.heads[..], x.links[..]), x.nextToUpdate) == InsertedAll(x.t, s, targets)
            && (Throughout(x.t, s, targets) <==> Forward(old(x.nextToUpdate), targets))
  {
    TablesFit(x.t, x.heads[..], x.links[..], x.nextToUpdate);
    ghost var s := State(Tables(x.heads[..], x.links[..]), x.nextToUpdate);
    AgreesThroughout(x.t, s, targets);
    assert targets[..0] == [];
    hide Agrees, EnterAll, Forward, Throughout;
    for i := 0 to |targets|
      invariant x.Shaped() && State(Tables(x.heads[..], x.links[..]), x.nextToUpdate) ==
                InsertedAll(x.t, s, targets[..i])
    {
      assert targets[..i + 1][..i] == targets[..i];
      x.Insert(targets[i]);
    }
    assert targets[..|targets|] == targets;
  }

  /** Going back by one position always breaks the chain: the position becomes its own predecessor. */
  method EnterAgain(x: Index, last: nat)
    requires x.Valid() && x.t.start <= last && x.nextToUpdate == last + 1
    modifies x, x.heads, x.links
    ensures x.nextToUpdate == last + 1 && x.heads.Length == HASH_SIZE && x.links.Length == CHAIN_SIZE
    ensures x.heads[x.t.HashAt(last)] == last && x.links[last % CHAIN_SIZE] == 0 && !x.Valid()
  {
    assert Latest(x.t, x.t.HashAt(last), last + 1) == Some(last);
    assert FirstFrom(x.t, last, last);
    BackAndForth(x, last);
  }

  // ---------------------------------------------------------------- prices

  /** LZ4HC_literalsPrice. */
  function LiteralsPrice(n: nat): nat {
    n + if n >= 15 then 1 + (n - 15) / 255 else 0
  }

  /** LZ4HC_sequencePrice. */
  function SequencePrice(lit: nat, len: nat): nat
    requires len >= MINMATCH
  {
    3 + LiteralsPrice(lit) + if len >= 19 then 1 + (len - 19) / 255 else 0
  }

  /** LZ4HC_encodeSequence without output limit: the encoding of the sequence, which costs its price. */
  method EncodeNext(src: seq<byte>, dst: array<byte>, anchor: nat, ip: nat, op: nat, m: nat, len: nat)
    returns (end: nat)
    requires anchor <= ip && m <= ip && ip - m <= MAX_DISTANCE && len >= MINMATCH && ip + 8 <= |src|
    requires BlockCompressor.Room(|src|, anchor, op, ip - anchor, len, dst.Length)
    modifies dst
    ensures At(dst[..], op, EncodeSequence(Sequence(src[anchor..ip], ip - m, len)))
    ensures end == op + SequencePrice(ip - anchor, len)
    ensures forall j :: 0 <= j < op ==> dst[j] == old(dst[j])
  {
    PriceIsSize(Sequence(src[anchor..ip], ip - m, len), []);
    hide EncodeSequence, SequencePrice, BlockCompressor.Room;
    end := BlockCompressor.EmitSequence(src, dst, anchor, ip, op, m, len, false, true);
  }

  /** Prices are the sizes of what will be written. */
  lemma PriceIsSize(q: Sequence, lit: seq<byte>)
    requires q.offset <= MAX_DISTANCE && q.matchLen >= MINMATCH
    ensures |EncodeSequence(q)| == SequencePrice(|q.literals|, q.matchLen)
    ensures |EncodeLast(lit)| == 1 + LiteralsPrice(|lit|)
  {
  }
}
