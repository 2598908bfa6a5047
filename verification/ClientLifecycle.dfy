/**
 The Go client: Connect, Stop and TransportStats called from any number of goroutines, in every interleaving. One step
 is one critical section, or one call into C between two of them.
 */
module ClientLifecycle {
  import opened Bytes

  /** Where a goroutine stands. */
  datatype Pc =
    | ConnectStart | InConnect(cancelled: bool) | Finish | FreeLock | FreeC(ptr: bool) | FreeHandle
    | StopStart | StopCall(ptr: bool, running: bool)
    | StatsStart | StatsCall
    | Done

  /**
   The fields of the client (`ptr` says that c.c is not nil), who holds the mutex between two steps, and what has been
   done to the C client and to the handle.
   */
  datatype State = State(freed: bool, running: bool, ptr: bool, holder: Option<nat>, pcs: seq<Pc>, released: nat,
                         deleted: nat)

  predicate Start(p: Pc) {
    p == ConnectStart || p == StopStart || p == StatsStart
  }

  predicate Initial(s: State) {
    && !s.freed && !s.running && s.ptr && s.holder == None && s.released == 0 && s.deleted == 0
    && forall t :: 0 <= t < |s.pcs| ==> Start(s.pcs[t])
  }

  /** Goroutine `t` does its next step; `cancel` says whether a waiting Connect sees its context end. */
  datatype Action = Action(t: nat, cancel: bool)

  function At(s: State, t: nat, p: Pc): State
    requires t < |s.pcs|
  {
    s.(pcs := s.pcs[t := p])
  }

  /** Steps that take the mutex. */
  predicate Locks(p: Pc) {
    p in {ConnectStart, Finish, FreeLock, StopStart, StatsStart}
  }

  function Next(s: State, a: Action): (n: State)
    ensures |n.pcs| == |s.pcs|
  {
    if a.t >= |s.pcs| then s
    else
      var t, p := a.t, s.pcs[a.t];
      if Locks(p) && s.holder.Some? then s
      else match p
        case ConnectStart =>
          if s.freed || s.running then At(s, t, Done)
          else At(s.(running := true), t, InConnect(false))
        case InConnect(c) => if a.cancel then At(s, t, InConnect(true)) else At(s, t, Finish)
        case Finish => At(s.(running := false), t, FreeLock)
        case FreeLock => if s.freed then At(s, t, Done) else At(s.(freed := true, ptr := false), t, FreeC(s.ptr))
        case FreeC(ptr) => At(s.(released := s.released + if ptr then 1 else 0), t, FreeHandle)
        case FreeHandle => At(s.(deleted := s.deleted + 1), t, Done)
        case StopStart => if s.freed then At(s, t, Done) else At(s, t, StopCall(s.ptr, s.running))
        case StopCall(_, running) => At(s, t, if running then Done else Finish)
        case StatsStart => if s.freed || !s.ptr then At(s, t, Done) else At(s.(holder := Some(t)), t, StatsCall)
        case StatsCall => At(s.(holder := None), t, Done)
        case Done => s
  }

  function Run(s: State, actions: seq<Action>): (n: State)
    ensures |n.pcs| == |s.pcs|
  {
    if actions == [] then s else Next(Run(s, actions[..|actions| - 1]), actions[|actions| - 1])
  }

  // ---------------------------------------------------------------- counting

  function One(b: bool): nat {
    if b then 1 else 0
  }

  /** Goroutines that are about to release the C client, and the handle. */
  function PendingC(pcs: seq<Pc>): nat {
    if pcs == [] then 0 else One(pcs[0] == FreeC(true)) + PendingC(pcs[1..])
  }

  function PendingHandle(pcs: seq<Pc>): nat {
    if pcs == [] then 0 else One(pcs[0].FreeC? || pcs[0].FreeHandle?) + PendingHandle(pcs[1..])
  }

  lemma {:induction false} PendingAfter(pcs: seq<Pc>, t: nat, p: Pc)
    requires t < |pcs|
    ensures PendingC(pcs[t := p]) == PendingC(pcs) - One(pcs[t] == FreeC(true)) + One(p == FreeC(true))
    ensures PendingHandle(pcs[t := p]) == PendingHandle(pcs) - One(pcs[t].FreeC? || pcs[t].FreeHandle?)
                                               + One(p.FreeC? || p.FreeHandle?)
    decreases |pcs|
  {
    if t == 0 {
      assert pcs[t := p][1..] == pcs[1..];
    } else {
      assert pcs[t := p][1..] == pcs[1..][t - 1 := p];
      PendingAfter(pcs[1..], t - 1, p);
    }
  }

  lemma {:induction false} NonePending(pcs: seq<Pc>)
    requires forall t :: 0 <= t < |pcs| ==> Start(pcs[t])
    ensures PendingC(pcs) == 0 && PendingHandle(pcs) == 0
    decreases |pcs|
  {
    if pcs != [] {
      NonePending(pcs[1..]);
    }
  }

  // ---------------------------------------------------------------- what every interleaving keeps

  /**
   There is one right to release the C client: it lies in the field c.c, then with the goroutine that took it out, and
   is used up by the release. The same for the handle and the flag `freed`.
   */
  ghost predicate RightsC(s: State) {
    One(s.ptr) + PendingC(s.pcs) + s.released == 1
  }

  ghost predicate RightsHandle(s: State) {
    One(!s.freed) + PendingHandle(s.pcs) + s.deleted == 1
  }

  ghost predicate Rights(s: State) {
    RightsC(s) && RightsHandle(s) && s.ptr == !s.freed
  }

  /** Only a goroutine in the C call of TransportStats keeps the mutex from one step to the next. */
  ghost predicate Mutex(s: State) {
    && (s.holder.Some? ==> s.holder.value < |s.pcs| && s.pcs[s.holder.value] == StatsCall && s.ptr)
    && forall t :: 0 <= t < |s.pcs| && s.pcs[t] == StatsCall ==> s.holder == Some(t)
  }

  ghost predicate Inv(s: State) {
    Rights(s) && Mutex(s)
  }

  /** A step changes the place of one goroutine. */
  lemma {:induction false} StepPlaces(s: State, a: Action)
    requires a.t < |s.pcs|
    ensures Next(s, a).pcs == s.pcs[a.t := Next(s, a).pcs[a.t]]
  {
  }

  /** What a step does to the client. */
  lemma {:induction false} StepEffects(s: State, a: Action)
    requires a.t < |s.pcs| && Next(s, a) != s
    ensures var n, p := Next(s, a), s.pcs[a.t];
            && n.released == s.released + One(p == FreeC(true)) && n.deleted == s.deleted + One(p.FreeHandle?)
            && (n.pcs[a.t].FreeC? ==> p.FreeLock? && !s.freed && n.freed && !n.ptr && n.pcs[a.t].ptr == s.ptr)
            && (!n.pcs[a.t].FreeC? ==> n.freed == s.freed && n.ptr == s.ptr)
            && (n.pcs[a.t].FreeHandle? <==> p.FreeC?)
  {
  }

  lemma {:induction false} StepKeepsRights(s: State, a: Action)
    requires Rights(s)
    ensures Rights(Next(s, a))
  {
    if a.t < |s.pcs| && Next(s, a) != s {
      StepPlaces(s, a);
      StepEffects(s, a);
      hide Next, PendingC, PendingHandle;
      PendingAfter(s.pcs, a.t, Next(s, a).pcs[a.t]);
    }
  }

  lemma {:induction false} StepKeepsMutex(s: State, a: Action)
    requires Mutex(s) && Rights(s)
    ensures Mutex(Next(s, a))
  {
    if a.t < |s.pcs| && Next(s, a) != s {
      StepPlaces(s, a);
      StepHolder(s, a);
      hide Next, Rights;
    }
  }

  /** What a step does to the mutex. */
  lemma {:induction false} StepHolder(s: State, a: Action)
    requires a.t < |s.pcs| && Next(s, a) != s
    ensures var n, p := Next(s, a), s.pcs[a.t];
            && (n.pcs[a.t] == StatsCall ==> s.holder == None && n.holder == Some(a.t) && n.ptr)
            && (n.pcs[a.t] != StatsCall ==> n.holder == if p == StatsCall then None else s.holder)
            && (n.ptr != s.ptr ==> s.holder == None)
  {
  }

  lemma {:induction false} StepKeepsInv(s: State, a: Action)
    requires Inv(s)
    ensures Inv(Next(s, a))
  {
    hide Next;
    StepKeepsRights(s, a);
    StepKeepsMutex(s, a);
  }

  lemma {:induction false} RunKeepsInv(s: State, actions: seq<Action>)
    requires Initial(s)
    ensures Inv(Run(s, actions))
    decreases |actions|
  {
    if actions == [] {
      NonePending(s.pcs);
    } else {
      RunKeepsInv(s, actions[..|actions| - 1]);
      StepKeepsInv(Run(s, actions[..|actions| - 1]), actions[|actions| - 1]);
    }
  }

  /** The C client and the handle are each released at most once, whatever the interleaving. */
  lemma {:induction false} ReleasedAtMostOnce(s: State, actions: seq<Action>)
    requires Initial(s)
    ensures Run(s, actions).released <= 1 && Run(s, actions).deleted <= 1
  {
    RunKeepsInv(s, actions);
  }

  /**
   While TransportStats is in its C call, the client it was given has not been released, nor can anyone be about to.
   */
  lemma {:induction false} StatsUseLiveClient(s: State, actions: seq<Action>, t: nat)
    requires Initial(s) && t < |s.pcs| == |Run(s, actions).pcs| && Run(s, actions).pcs[t] == StatsCall
    ensures Run(s, actions).released == 0 && PendingC(Run(s, actions).pcs) == 0 && Run(s, actions).ptr
  {
    RunKeepsInv(s, actions);
  }

  /** When every goroutine is done and the client was freed, everything has been released, once. */
  lemma {:induction false} ReleasedInTheEnd(s: State, actions: seq<Action>)
    requires Initial(s) && var e := Run(s, actions); e.freed && forall t :: 0 <= t < |e.pcs| ==> e.pcs[t] == Done
    ensures Run(s, actions).released == 1 && Run(s, actions).deleted == 1
  {
    RunKeepsInv(s, actions);
    AllDone(Run(s, actions).pcs);
  }

  /** A Connect in or behind its C call, or a Stop that found the client neither freed nor running. */
  predicate Bound(p: Pc) {
    p.InConnect? || p == Finish || p == FreeLock || (p.StopCall? && !p.running)
  }

  lemma {:induction false} BoundStep(s: State, a: Action, t: nat)
    requires t < |s.pcs| && (Bound(s.pcs[t]) || s.freed)
    ensures Bound(Next(s, a).pcs[t]) || Next(s, a).freed
  {
  }

  /** Whoever is bound to release the client does not give up before it is freed. */
  lemma {:induction false} BoundToFree(s: State, actions: seq<Action>, k: nat, t: nat)
    requires k <= |actions| && t < |s.pcs| && Bound(Run(s, actions[..k]).pcs[t])
    ensures Bound(Run(s, actions).pcs[t]) || Run(s, actions).freed
    decreases |actions|
  {
    if k == |actions| {
      assert actions[..k] == actions;
    } else {
      var start := actions[..|actions| - 1];
      assert start[..k] == actions[..k];
      BoundToFree(s, start, k, t);
      BoundStep(Run(s, start), actions[|actions| - 1], t);
    }
  }

  /** A Connect that got as far as its C call, or a Stop without one, has released everything when all are done. */
  lemma {:induction false} ReleasedByWhoIsBound(s: State, actions: seq<Action>, k: nat, t: nat)
    requires Initial(s) && k <= |actions| && t < |s.pcs| && Bound(Run(s, actions[..k]).pcs[t])
    requires forall u :: 0 <= u < |s.pcs| ==> Run(s, actions).pcs[u] == Done
    ensures Run(s, actions).released == 1 && Run(s, actions).deleted == 1
  {
    hide Run;
    BoundToFree(s, actions, k, t);
    ReleasedInTheEnd(s, actions);
  }

  lemma {:induction false} AllDone(pcs: seq<Pc>)
    requires forall t :: 0 <= t < |pcs| ==> pcs[t] == Done
    ensures PendingC(pcs) == 0 && PendingHandle(pcs) == 0
    decreases |pcs|
  {
    if pcs != [] {
      AllDone(pcs[1..]);
    }
  }

  // ---------------------------------------------------------------- Connect in flight

  /** On the way to releasing the client. */
  predicate Releasing(p: Pc) {
    p.Finish? || p.FreeLock? || p.FreeC? || p.FreeHandle? || (p.StopCall? && !p.running)
  }

  /** No goroutine is on the way to releasing the client. */
  predicate Calm(s: State) {
    forall t :: 0 <= t < |s.pcs| ==> !Releasing(s.pcs[t])
  }

  /** Every Connect that starts does so while nobody is on the way to releasing the client. */
  ghost predicate Orderly(s: State, actions: seq<Action>)
    decreases |actions|
  {
    actions == []
    || (var before, a := Run(s, actions[..|actions| - 1]), actions[|actions| - 1];
        && Orderly(s, actions[..|actions| - 1])
        && (a.t < |before.pcs| && before.pcs[a.t] == ConnectStart && Next(before, a).running && !before.running ==>
            Calm(before)))
  }

  /** A Connect in its C call is alone with the client. */
  ghost predicate Alone(s: State) {
    && Inv(s)
    && forall t :: 0 <= t < |s.pcs| && s.pcs[t].InConnect? ==>
         s.running && s.ptr && Calm(s) && forall u :: 0 <= u < |s.pcs| && s.pcs[u].InConnect? ==> u == t
  }

  lemma {:induction false} StepKeepsAlone(s: State, a: Action)
    requires Alone(s)
    requires a.t < |s.pcs| && s.pcs[a.t] == ConnectStart && Next(s, a).running && !s.running ==> Calm(s)
    ensures Alone(Next(s, a))
  {
    StepKeepsInv(s, a);
    hide Rights, Mutex;
  }

  /** In orderly runs the client is never released under a Connect. */
  lemma {:induction false} ConnectUsesLiveClient(s: State, actions: seq<Action>)
    requires Initial(s) && Orderly(s, actions)
    ensures Alone(Run(s, actions))
    ensures forall t :: 0 <= t < |Run(s, actions).pcs| && Run(s, actions).pcs[t].InConnect? ==>
              Run(s, actions).released == 0
    decreases |actions|
  {
    if actions == [] {
      RunKeepsInv(s, actions);
    } else {
      ConnectUsesLiveClient(s, actions[..|actions| - 1]);
      StepKeepsAlone(Run(s, actions[..|actions| - 1]), actions[|actions| - 1]);
    }
  }

  /**
   Otherwise it may be: from a Connect in flight and another goroutine on the way to the release, the release follows.
   */
  lemma {:induction false} ReleaseUnderConnect(s: State, u: nat, t: nat) returns (actions: seq<Action>)
    requires Inv(s) && u < |s.pcs| && t < |s.pcs| && s.pcs[u].InConnect? && !s.freed && s.holder == None
    requires Releasing(s.pcs[t]) && !s.pcs[t].FreeC? && !s.pcs[t].FreeHandle?
    ensures Run(s, actions).released == 1 && Run(s, actions).pcs[u].InConnect?
  {
    var a := Action(t, false);
    if s.pcs[t].StopCall? {
      actions := [a, a, a, a];
      Unroll4(s, a);
    } else if s.pcs[t].Finish? {
      actions := [a, a, a];
      Unroll3(s, a);
    } else {
      actions := [a, a];
      Unroll2(s, a);
    }
  }

  /** With nothing freed, nobody has got as far as the release itself. */
  lemma {:induction false} NobodyFreeing(pcs: seq<Pc>, t: nat)
    requires PendingHandle(pcs) == 0 && t < |pcs|
    ensures !pcs[t].FreeC? && !pcs[t].FreeHandle?
    decreases |pcs|
  {
    if t > 0 {
      NobodyFreeing(pcs[1..], t - 1);
    }
  }

  lemma {:induction false} RunConcat(s: State, a: Action, actions: seq<Action>)
    ensures Run(s, [a] + actions) == Run(Next(s, a), actions)
    decreases |actions|
  {
    if actions == [] {
      assert [a] + actions == [a] && [a][..0] == [];
    } else {
      var k := |actions| - 1;
      assert ([a] + actions)[..k + 1] == [a] + actions[..k];
      RunConcat(s, a, actions[..k]);
    }
  }

  /**
   The converse of what orderly runs promise: if a Connect can start while somebody is on the way to the release, there
   is a continuation in which the client is released under it.
   */
  lemma {:induction false} StartUnderRelease(s: State, u: nat, t: nat) returns (actions: seq<Action>)
    requires Inv(s) && u < |s.pcs| && t < |s.pcs| && s.pcs[u] == ConnectStart && Releasing(s.pcs[t])
    requires !s.freed && !s.running && s.holder == None
    ensures Run(s, actions).released == 1 && Run(s, actions).pcs[u].InConnect?
  {
    var a := Action(u, false);
    NobodyFreeing(s.pcs, t);
    StepKeepsInv(s, a);
    actions := ReleaseUnderConnect(Next(s, a), u, t);
    RunConcat(s, a, actions);
    actions := [a] + actions;
  }

  lemma Unroll2(s: State, a: Action)
    ensures Run(s, [a, a]) == Next(Next(s, a), a)
  {
    assert [a][..0] == [];
    assert Run(s, [a]) == Next(s, a);
    assert [a, a][..1] == [a];
  }

  lemma Unroll3(s: State, a: Action)
    ensures Run(s, [a, a, a]) == Next(Next(Next(s, a), a), a)
  {
    Unroll2(s, a);
    assert [a, a, a][..2] == [a, a];
  }

  lemma Unroll4(s: State, a: Action)
    ensures Run(s, [a, a, a, a]) == Next(Next(Next(Next(s, a), a), a), a)
  {
    Unroll3(s, a);
    assert [a, a, a, a][..3] == [a, a, a];
  }

  /** Such a state is reached when Stop looks at the client just before Connect starts. */
  lemma StopBeforeConnect()
    ensures var s := State(false, false, true, None, [ConnectStart, StopStart], 0, 0);
            var e := Run(s, [Action(1, false), Action(0, false)]);
            Initial(s) && e.pcs == [InConnect(false), StopCall(true, false)] && !e.freed && e.holder == None
                && Releasing(e.pcs[1])
  {
    var s := State(false, false, true, None, [ConnectStart, StopStart], 0, 0);
    var a, b := Action(1, false), Action(0, false);
    assert [a][..0] == [];
    assert Run(s, [a]) == Next(s, a);
    assert [a, b][..1] == [a];
  }
}
