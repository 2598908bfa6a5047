/**
 PoolType: addresses that are handed out one at a time. The map says which addresses are owned and which are in use.
 */
module AddressPool {
  import opened Bytes

  class Pool<A(==)> {
    var freelist: seq<A>
    var inUse: map<A, bool>

    /** Every entry of the free list is owned, and every address not in use is on the free list. */
    ghost predicate Valid()
      reads this
    {
      (forall a <- freelist :: a in inUse) && forall a <- inUse :: !inUse[a] ==> a in freelist
    }

    constructor ()
      ensures Valid() && inUse == map[]
    {
      freelist, inUse := [], map[];
    }

    /** add_addr: an address that is already owned stays as it is. */
    method AddAddr(addr: A)
      requires Valid()
      modifies this
      ensures Valid() && inUse == AfterAdd(old(inUse), addr)
      ensures freelist == if addr in old(inUse) then old(freelist) else old(freelist) + [addr]
    {
      if addr !in inUse {
        inUse := inUse[addr := false];
        freelist := freelist + [addr];
      }
    }

    /** acquire_addr: the first free entry; entries before it, whose address has been taken meanwhile, are dropped. */
    method AcquireAddr() returns (r: Option<A>)
      requires Valid()
      modifies this
      ensures Valid()
      ensures r.Some? ==> IsFree(old(inUse), r.value) && inUse == old(inUse)[r.value := true]
      ensures r.None? ==> inUse == old(inUse) && forall a <- inUse :: inUse[a]
      ensures |freelist| <= |old(freelist)| && freelist == old(freelist)[|old(freelist)| - |freelist|..]
      ensures var n := |old(freelist)| - |freelist|;
              if r.Some? then n > 0 && old(freelist)[n - 1] == r.value && Passed(old(freelist), old(inUse), n - 1)
              else freelist == [] && Passed(old(freelist), old(inUse), n)
    {
      while freelist != []
        invariant Valid() && inUse == old(inUse)
        invariant |freelist| <= |old(freelist)| && freelist == old(freelist)[|old(freelist)| - |freelist|..]
        invariant Passed(old(freelist), old(inUse), |old(freelist)| - |freelist|)
        decreases |freelist|
      {
        var a := freelist[0];
        assert a == old(freelist)[|old(freelist)| - |freelist|];
        assert a in freelist;
        assert freelist == [a] + freelist[1..];
        if !inUse[a] {
          inUse := inUse[a := true];
          freelist := freelist[1..];
          return Some(a);
        }
        freelist := freelist[1..];
      }
      r := None;
    }

    /** acquire_specific_addr: the entry on the free list stays behind. */
    method AcquireSpecific(addr: A) returns (ok: bool)
      requires Valid()
      modifies this
      ensures Valid() && ok == IsFree(old(inUse), addr)
      ensures inUse == (if ok then old(inUse)[addr := true] else old(inUse)) && freelist == old(freelist)
    {
      ok := addr in inUse && !inUse[addr];
      if ok {
        inUse := inUse[addr := true];
      }
    }

    /** release_addr: an owned address goes back to the free list, even if it is there already. */
    method ReleaseAddr(addr: A)
      requires Valid()
      modifies this
      ensures Valid() && inUse == AfterRelease(old(inUse), addr)
      ensures freelist == if addr in old(inUse) then old(freelist) + [addr] else old(freelist)
    {
      if addr in inUse {
        freelist := freelist + [addr];
        inUse := inUse[addr := false];
      }
    }
  }

  /** The first `n` entries of the list are in use. */
  ghost predicate Passed<A>(list: seq<A>, f: map<A, bool>, n: nat)
    requires n <= |list|
  {
    forall i :: 0 <= i < n ==> list[i] in f && f[list[i]]
  }

  predicate IsFree<A(==)>(f: map<A, bool>, a: A) {
    a in f && !f[a]
  }

  function AfterAdd<A>(f: map<A, bool>, a: A): map<A, bool> {
    if a in f then f else f[a := false]
  }

  function AfterRelease<A>(f: map<A, bool>, a: A): map<A, bool> {
    if a in f then f[a := false] else f
  }

  // ---------------------------------------------------------------- whole runs

  datatype Call<A> = Add(addr: A) | Acquire | Specific(addr: A) | Release(addr: A)

  /** A call and its answer. */
  datatype Event<A> =
    | Added(addr: A)
    | Acquired(addr: A)
    | Depleted
    | Taken(addr: A)
    | Refused(addr: A)
    | Released(addr: A)

  /** What the caller may conclude about the owned addresses from the calls and answers so far. */
  function Flags<A(==)>(run: seq<Event<A>>): map<A, bool> {
    if run == [] then map[] else After(Flags(run[..|run| - 1]), run[|run| - 1])
  }

  /** An answer is right: only free addresses are handed out, and nothing is refused while it is free. */
  ghost predicate Right<A>(f: map<A, bool>, e: Event<A>) {
    match e
    case Acquired(a) => IsFree(f, a)
    case Taken(a) => IsFree(f, a)
    case Refused(a) => !IsFree(f, a)
    case Depleted => forall a <- f :: f[a]
    case _ => true
  }

  ghost predicate RightRun<A>(run: seq<Event<A>>) {
    forall i :: 0 <= i < |run| ==> Right(Flags(run[..i]), run[i])
  }

  ghost predicate Answers<A>(c: Call<A>, e: Event<A>) {
    match c
    case Add(a) => e == Added(a)
    case Acquire => e.Acquired? || e.Depleted?
    case Specific(a) => e == Taken(a) || e == Refused(a)
    case Release(a) => e == Released(a)
  }

  /** One call, recorded. */
  method Perform<A(==)>(p: Pool<A>, c: Call<A>) returns (e: Event<A>)
    requires p.Valid()
    modifies p
    ensures p.Valid() && Answers(c, e) && Right(old(p.inUse), e)
    ensures p.inUse == After(old(p.inUse), e)
  {
    match c {
      case Add(a) =>
        p.AddAddr(a);
        e := Added(a);
      case Acquire =>
        var r := p.AcquireAddr();
        e := if r.Some? then Acquired(r.value) else Depleted;
      case Specific(a) =>
        var ok := p.AcquireSpecific(a);
        e := if ok then Taken(a) else Refused(a);
      case Release(a) =>
        p.ReleaseAddr(a);
        e := Released(a);
    }
  }

  /** Any series of calls on a new pool gets right answers only. */
  method Run<A(==,!new)>(calls: seq<Call<A>>) returns (run: seq<Event<A>>)
    ensures |run| == |calls| && RightRun(run) && forall k :: 0 <= k < |run| ==> Deserved(run, k)
    ensures forall i :: 0 <= i < |calls| ==> Answers(calls[i], run[i])
  {
    var p := new Pool<A>();
    run := [];
    for i := 0 to |calls|
      invariant fresh(p) && p.Valid() && |run| == i && RightRun(run) && p.inUse == Flags(run)
      invariant forall j :: 0 <= j < i ==> Answers(calls[j], run[j])
    {
      var e := Perform(p, calls[i]);
      LongerRun(run, e);
      run := run + [e];
    }
    forall k | 0 <= k < |run|
      ensures Deserved(run, k)
    {
      RightIsDeserved(run, k);
    }
  }

  lemma {:induction false} LongerRun<A>(run: seq<Event<A>>, e: Event<A>)
    requires RightRun(run) && Right(Flags(run), e)
    ensures RightRun(run + [e])
    ensures (run + [e])[..|run|] == run
  {
    var r := run + [e];
    assert r[..|run|] == run;
    forall i | 0 <= i < |r|
      ensures Right(Flags(r[..i]), r[i])
    {
      if i < |run| {
        assert r[..i] == run[..i];
      }
    }
  }

  /** What one event does. */
  function After<A(==)>(f: map<A, bool>, e: Event<A>): map<A, bool> {
    match e
    case Added(a) => AfterAdd(f, a)
    case Acquired(a) => f[a := true]
    case Taken(a) => f[a := true]
    case Released(a) => AfterRelease(f, a)
    case _ => f
  }

  lemma {:induction false} FlagsStep<A>(run: seq<Event<A>>, k: nat)
    requires 0 < k <= |run|
    ensures Flags(run[..k]) == After(Flags(run[..k - 1]), run[k - 1])
  {
    assert run[..k][..k - 1] == run[..k - 1];
  }

  predicate HandsOut<A(==)>(e: Event<A>, a: A) {
    e == Acquired(a) || e == Taken(a)
  }

  // ---------------------------------------------------------------- what the calls alone say

  /** The address was added before step `k`. */
  ghost predicate Owned<A(!new)>(run: seq<Event<A>>, k: nat, a: A)
    requires k <= |run|
  {
    exists i :: 0 <= i < k && run[i] == Added(a)
  }

  ghost predicate LentAt<A(!new)>(run: seq<Event<A>>, i: nat, k: nat, a: A)
    requires i < k <= |run|
  {
    HandsOut(run[i], a) && forall j :: i < j < k ==> run[j] != Released(a)
  }

  /** The address was handed out before step `k` and has not been released since. */
  ghost predicate Lent<A(!new)>(run: seq<Event<A>>, k: nat, a: A)
    requires k <= |run|
  {
    exists i :: 0 <= i < k && LentAt(run, i, k, a)
  }

  /** Addresses that were added and are not lent are available, and no others. */
  ghost predicate Available<A(!new)>(run: seq<Event<A>>, k: nat, a: A)
    requires k <= |run|
  {
    Owned(run, k, a) && !Lent(run, k, a)
  }

  /** The answer at step `k` is the one that the calls before it entitle the caller to. */
  ghost predicate Deserved<A(!new)>(run: seq<Event<A>>, k: nat)
    requires k < |run|
  {
    match run[k]
    case Acquired(a) => Available(run, k, a)
    case Taken(a) => Available(run, k, a)
    case Refused(a) => !Available(run, k, a)
    case Depleted => forall a :: !Available(run, k, a)
    case _ => true
  }

  lemma {:induction false} OwnedStep<A(!new)>(run: seq<Event<A>>, k: nat, a: A)
    requires k < |run|
    ensures Owned(run, k + 1, a) <==> Owned(run, k, a) || run[k] == Added(a)
  {
  }

  lemma {:induction false} LentStep<A(!new)>(run: seq<Event<A>>, k: nat, a: A)
    requires k < |run|
    ensures Lent(run, k + 1, a) <==> HandsOut(run[k], a) || (Lent(run, k, a) && run[k] != Released(a))
  {
    if Lent(run, k, a) && run[k] != Released(a) {
      var i :| 0 <= i < k && LentAt(run, i, k, a);
      assert LentAt(run, i, k + 1, a);
    }
    if HandsOut(run[k], a) {
      assert LentAt(run, k, k + 1, a);
    }
    if Lent(run, k + 1, a) && !HandsOut(run[k], a) {
      var i :| 0 <= i < k + 1 && LentAt(run, i, k + 1, a);
      assert LentAt(run, i, k, a);
    }
  }

  /** The flags of the map say which addresses are owned and which of them are lent. */
  lemma {:induction false} FlagsAre<A(!new)>(run: seq<Event<A>>, k: nat, a: A)
    requires RightRun(run) && k <= |run|
    ensures a in Flags(run[..k]) <==> Owned(run, k, a)
    ensures Lent(run, k, a) ==> Owned(run, k, a)
    ensures Owned(run, k, a) ==> (Flags(run[..k])[a] <==> Lent(run, k, a))
    decreases k, 1
  {
    if k == 0 {
      assert run[..0] == [];
    } else {
      FlagsMove(run, k, a);
    }
  }

  lemma {:induction false} FlagsMove<A(!new)>(run: seq<Event<A>>, k: nat, a: A)
    requires RightRun(run) && 0 < k <= |run|
    ensures a in Flags(run[..k]) <==> Owned(run, k, a)
    ensures Lent(run, k, a) ==> Owned(run, k, a)
    ensures Owned(run, k, a) ==> (Flags(run[..k])[a] <==> Lent(run, k, a))
    decreases k, 0
  {
    hide Flags, Owned, Lent;
    FlagsAre(run, k - 1, a);
    FlagsStep(run, k);
    OwnedStep(run, k - 1, a);
    LentStep(run, k - 1, a);
    assert Right(Flags(run[..k - 1]), run[k - 1]);
  }

  lemma {:induction false} RightIsDeserved<A(!new)>(run: seq<Event<A>>, k: nat)
    requires RightRun(run) && k < |run|
    ensures Deserved(run, k)
  {
    assert Right(Flags(run[..k]), run[k]);
    hide Flags, Owned, Lent, RightRun;
    forall a: A
      ensures IsFree(Flags(run[..k]), a) <==> Available(run, k, a)
      ensures a in Flags(run[..k]) <==> Owned(run, k, a)
    {
      FlagsAre(run, k, a);
    }
  }

  /** A released address can be had again. */
  lemma {:induction false} ReleasedIsAvailable<A(!new)>(run: seq<Event<A>>, h: nat, i: nat, k: nat, a: A)
    requires RightRun(run) && h < i < k < |run| && run[h] == Added(a) && run[i] == Released(a)
    requires forall j :: i < j < k ==> !HandsOut(run[j], a)
    ensures Available(run, k, a) && run[k] != Depleted && run[k] != Refused(a)
  {
    RightIsDeserved(run, k);
    assert forall j :: 0 <= j < k ==> !LentAt(run, j, k, a);
    hide Lent, Owned;
    NotLent(run, k, a);
    IsOwned(run, h, k, a);
  }

  lemma NotLent<A(!new)>(run: seq<Event<A>>, k: nat, a: A)
    requires k <= |run| && forall j :: 0 <= j < k ==> !LentAt(run, j, k, a)
    ensures !Lent(run, k, a)
  {
  }

  lemma IsOwned<A(!new)>(run: seq<Event<A>>, h: nat, k: nat, a: A)
    requires h < k <= |run| && run[h] == Added(a)
    ensures Owned(run, k, a)
  {
  }

  /** So can one that was never handed out. */
  lemma {:induction false} AddedIsAvailable<A(!new)>(run: seq<Event<A>>, h: nat, k: nat, a: A)
    requires RightRun(run) && h < k < |run| && run[h] == Added(a)
    requires forall j :: 0 <= j < k ==> !HandsOut(run[j], a)
    ensures Available(run, k, a) && run[k] != Depleted && run[k] != Refused(a)
  {
    hide Lent, Owned;
    RightIsDeserved(run, k);
    NotLent(run, k, a);
    IsOwned(run, h, k, a);
  }

  /** A refusal has a reason. */
  lemma {:induction false} RefusedForAReason<A(!new)>(run: seq<Event<A>>, k: nat, a: A)
    requires RightRun(run) && k < |run| && run[k] == Refused(a)
    ensures !Owned(run, k, a) || Lent(run, k, a)
  {
    RightIsDeserved(run, k);
  }

  /** No address is handed out twice without having been released in between. */
  lemma {:induction false} HandedOutOnce<A(!new)>(run: seq<Event<A>>, i: nat, k: nat, a: A)
    requires RightRun(run) && i < k < |run| && HandsOut(run[i], a) && HandsOut(run[k], a)
    ensures exists j :: i < j < k && run[j] == Released(a)
  {
    RightIsDeserved(run, k);
    if forall j :: i < j < k ==> run[j] != Released(a) {
      assert LentAt(run, i, k, a);
    }
  }

  /** When the pool is depleted, every address that was added is lent. */
  lemma {:induction false} DepletedMeansAllInUse<A(!new)>(run: seq<Event<A>>, i: nat, k: nat, a: A)
    requires RightRun(run) && i < k < |run| && run[i] == Added(a) && run[k] == Depleted
    ensures Lent(run, k, a)
  {
    RightIsDeserved(run, k);
    assert !Available(run, k, a);
  }
}
