// Why the buffers of AllReduceDB must alternate (acl_cub/aclcub.hpp:212-217, 245-253 and 342): if two
// consecutive calls of a block with several warps use one buffer, some schedule runs into a race.
module AllReduceNecessity {
  import opened Arithmetic
  import opened WarpGeometry
  import opened AllReduceProtocol

  // ----- Control, whatever the slots hold -------------------------------------------------------

  ghost predicate PcOk<T>(r: Run<T>, th: Thread<T>) {
    && (th.pc.Folding? ==> r.strategy.SerialFold? && 0 < th.pc.next <= Warps(r.threads))
    && (th.pc.Loaded? ==> r.strategy.WarpFold?)
  }

  ghost predicate Control<T>(r: Run<T>, s: State<T>)
    requires r.Valid()
  {
    && Shape(r, s)
    && (forall t :: 0 <= t < r.threads ==> PcOk(r, s.threads[t]))
    && Synchronised(s)
    && (r.strategy.WarpFold? ==> WarpsTogether(s))
  }

  // How one action moves a thread.
  lemma MovedThread<T(!new)>(r: Run<T>, s: State<T>, a: Action, t: nat)
    requires r.Valid() && Warps(r.threads) > 1 && Control(r, s) && Enabled(r, s, a) && t < r.threads && Moves(a, t)
    ensures
      var th, th' := s.threads[t], Apply(r, s, a).threads[t];
      match a
      case Publish(_) => th.pc.Start? && th'.pc.Published? && th'.iter == th.iter
      case Arrive(_) => th.pc.Published? && th'.pc.Arrived? && th'.iter == th.iter
      case Leave(_) => th.pc.Arrived? && th'.pc.Entered? && th'.iter == th.iter
      case Read(_) => && th'.iter == th.iter
                      && if th.pc.Folding? then th'.pc.Folding? && th'.pc.next == th.pc.next + 1 <= Warps(r.threads)
                         else th.pc.Entered? && if r.strategy.SerialFold? then th'.pc.Folding? && th'.pc.next == 1 else th'.pc.Loaded?
      case _ => (th.pc.Folding? || th.pc.Loaded?) && th'.pc.Start? && th'.iter == th.iter + 1
  {
    if a.Collective? {
      assert t == Member(WarpOf(t), LaneOf(t));
    }
  }

  lemma CountsMove<T(!new)>(r: Run<T>, s: State<T>, a: Action, t: nat)
    requires r.Valid() && Warps(r.threads) > 1 && Control(r, s) && Enabled(r, s, a) && t < r.threads
    ensures s.threads[t].ArrivedAt() <= Apply(r, s, a).threads[t].ArrivedAt()
    ensures Apply(r, s, a).threads[t].Passed() == if a == Leave(t) then s.threads[t].ArrivedAt() else s.threads[t].Passed()
    ensures PcOk(r, Apply(r, s, a).threads[t])
  {
    assert PcOk(r, s.threads[t]);
    if Moves(a, t) {
      MovedThread(r, s, a, t);
    } else {
      OthersStay(r, s, a, t);
    }
  }

  lemma StepKeepsControl<T(!new)>(r: Run<T>, s: State<T>, a: Action)
    requires r.Valid() && Warps(r.threads) > 1 && Control(r, s) && Enabled(r, s, a)
    ensures Control(r, Apply(r, s, a))
  {
    var s' := Apply(r, s, a);
    forall t | 0 <= t < r.threads
      ensures PcOk(r, s'.threads[t])
    {
      CountsMove(r, s, a, t);
    }
    forall t, u | 0 <= t < r.threads && 0 <= u < r.threads
      ensures s'.threads[t].Passed() <= s'.threads[u].ArrivedAt()
    {
      CountsMove(r, s, a, t);
      CountsMove(r, s, a, u);
    }
    if r.strategy.WarpFold? {
      forall t, u | 0 <= t < r.threads && 0 <= u < r.threads && WarpOf(t) == WarpOf(u)
        ensures s'.threads[t].iter == s'.threads[u].iter
      {
        IterMoves(r, s, a, t);
        IterMoves(r, s, a, u);
      }
    }
  }

  // With the warp fold only a collective ends a call.
  lemma IterMoves<T(!new)>(r: Run<T>, s: State<T>, a: Action, t: nat)
    requires r.Valid() && Warps(r.threads) > 1 && Control(r, s) && Enabled(r, s, a) && t < r.threads
    requires r.strategy.WarpFold?
    ensures Apply(r, s, a).threads[t].iter == s.threads[t].iter + if a.Collective? && WarpOf(t) == a.w then 1 else 0
  {
    assert PcOk(r, s.threads[t]);
    if Moves(a, t) {
      MovedThread(r, s, a, t);
    } else {
      OthersStay(r, s, a, t);
    }
  }

  // ----- Driving the block to a race ------------------------------------------------------------

  function Rank(pc: Pc): nat {
    match pc
    case Start => 0
    case Published => 1
    case Arrived => 2
    case Entered => 3
    case Folding(next, _) => 3 + next
    case Loaded(_) => 4
  }

  // Warp 0 is to finish call i, the other warps to pass its barrier and no more.
  predicate Behind<T>(i: nat, t: nat, th: Thread<T>) {
    if WarpOf(t) == 0 then th.iter <= i else th.iter < i || (th.iter == i && Rank(th.pc) < 3)
  }

  predicate InPlace<T>(i: nat, t: nat, th: Thread<T>) {
    if WarpOf(t) == 0 then th.iter == i + 1 && th.pc.Start? else th.iter == i && th.pc.Entered?
  }

  predicate NotAhead<T>(i: nat, t: nat, th: Thread<T>) {
    Behind(i, t, th) || InPlace(i, t, th)
  }

  ghost predicate NoneAhead<T>(i: nat, threads: seq<Thread<T>>) {
    forall t :: 0 <= t < |threads| ==> NotAhead(i, t, threads[t])
  }

  ghost predicate AllInPlace<T>(i: nat, threads: seq<Thread<T>>) {
    forall t :: 0 <= t < |threads| ==> InPlace(i, t, threads[t])
  }

  // The actions a thread still has to take, or more.
  function Lag<T>(warps: nat, i: nat, t: nat, th: Thread<T>): nat {
    if !Behind(i, t, th) then 0
    else
      var left := if WarpOf(t) == 0 then i + 1 - th.iter else i - th.iter;
      var lag := left * (warps + 4) + (if WarpOf(t) == 0 then 0 else 3) - Rank(th.pc);
      if lag < 0 then 0 else lag
  }

  // One action further: a step inside the call, or the end of the call.
  predicate Advances<T>(warps: nat, th: Thread<T>, th': Thread<T>) {
    && Rank(th.pc) <= warps + 3
    && (|| (th'.iter == th.iter && Rank(th'.pc) == Rank(th.pc) + 1 && (Rank(th'.pc) == 3 ==> th'.pc.Entered?))
        || (th'.iter == th.iter + 1 && th'.pc.Start? && 3 < Rank(th.pc)))
  }

  lemma StepAdvances<T(!new)>(r: Run<T>, s: State<T>, a: Action, t: nat)
    requires r.Valid() && Warps(r.threads) > 1 && Control(r, s) && Enabled(r, s, a) && t < r.threads && Moves(a, t)
    ensures Advances(Warps(r.threads), s.threads[t], Apply(r, s, a).threads[t])
  {
    assert PcOk(r, s.threads[t]);
    MovedThread(r, s, a, t);
  }

  // A thread that is behind advances towards its place and no further.
  lemma LagFalls<T>(warps: nat, i: nat, t: nat, th: Thread<T>, th': Thread<T>)
    requires Advances(warps, th, th') && Behind(i, t, th)
    ensures NotAhead(i, t, th') && Lag(warps, i, t, th') < Lag(warps, i, t, th)
  {
    var k := warps + 4;
    var left := if WarpOf(t) == 0 then i + 1 - th.iter else i - th.iter;
    assert left * k == (left - 1) * k + k;
    assert left == 0 ==> left * k == 0;
    if left > 0 {
      MulMonotone(0, left - 1, k);
    }
  }

  function Lags<T>(warps: nat, i: nat, threads: seq<Thread<T>>): (r: seq<nat>)
    ensures |r| == |threads| && forall t :: 0 <= t < |r| ==> r[t] == Lag(warps, i, t, threads[t])
  {
    seq(|threads|, t requires 0 <= t < |threads| => Lag(warps, i, t, threads[t]))
  }

  function TotalLag<T>(warps: nat, i: nat, threads: seq<Thread<T>>): nat {
    Sum(Lags(warps, i, threads))
  }

  // While some thread is behind, some action that waits for nothing moves only threads that are.
  lemma CanCatchUp<T(!new)>(r: Run<T>, s: State<T>, i: nat, u: nat) returns (a: Action, v: nat)
    requires r.Valid() && Warps(r.threads) > 1 && Control(r, s)
    requires NoneAhead(i, s.threads)
    requires u < r.threads && Behind(i, u, s.threads[u])
    ensures Enabled(r, s, a) && Gathered(r, s, a) && v < r.threads && Moves(a, v)
    ensures forall t :: 0 <= t < r.threads && Moves(a, t) ==> Behind(i, t, s.threads[t])
  {
    v := FirstBehind(r, s, i, u);
    var call := s.threads[v].iter;
    if t :| 0 <= t < r.threads && s.threads[t].iter == call && Behind(i, t, s.threads[t])
            && !s.threads[t].pc.Arrived? && !s.threads[t].pc.Loaded? {
      assert PcOk(r, s.threads[t]);
      v := t;
      match s.threads[t].pc
      case Start => a := Publish(t);
      case Published => a := Arrive(t);
      case Entered => a := Read(t);
      case Folding(next, _) => a := if next == Warps(r.threads) then Finish(t) else Read(t);
    } else if t :| 0 <= t < r.threads && s.threads[t].iter == call && Behind(i, t, s.threads[t]) && s.threads[t].pc.Arrived? {
      a, v := Leave(t), t;
      assert forall x :: 0 <= x < r.threads ==> NotAhead(i, x, s.threads[x]);
    } else {
      a := Collective(WarpOf(v));
      WarpLoaded(r, s, i, v);
    }
  }

  // Of the threads that are behind, one in no later call than any thread.
  lemma FirstBehind<T(!new)>(r: Run<T>, s: State<T>, i: nat, u: nat) returns (v: nat)
    requires r.Valid() && Shape(r, s) && NoneAhead(i, s.threads)
    requires u < r.threads && Behind(i, u, s.threads[u])
    ensures v < r.threads && Behind(i, v, s.threads[v])
    ensures forall x :: 0 <= x < r.threads ==> s.threads[v].iter <= s.threads[x].iter
  {
    var first := LeastCall(s.threads);
    assert NotAhead(i, first, s.threads[first]);
    v := if Behind(i, first, s.threads[first]) then first else u;
  }

  // When the lanes of its call can only be in the collective, the whole warp is.
  lemma WarpLoaded<T(!new)>(r: Run<T>, s: State<T>, i: nat, v: nat)
    requires r.Valid() && Warps(r.threads) > 1 && Control(r, s) && NoneAhead(i, s.threads)
    requires v < r.threads && Behind(i, v, s.threads[v])
    requires forall x :: 0 <= x < r.threads && s.threads[x].iter == s.threads[v].iter && Behind(i, x, s.threads[x]) ==>
                           s.threads[x].pc.Loaded?
    ensures Enabled(r, s, Collective(WarpOf(v)))
    ensures forall x :: 0 <= x < r.threads && WarpOf(x) == WarpOf(v) ==> Behind(i, x, s.threads[x])
  {
    assert PcOk(r, s.threads[v]);
    forall x | 0 <= x < r.threads && WarpOf(x) == WarpOf(v)
      ensures s.threads[x].iter == s.threads[v].iter && Behind(i, x, s.threads[x])
    {
    }
    assert WarpReady(s, WarpOf(v), Lanes(r.threads, WarpOf(v)));
  }

  lemma CaughtUp<T(!new)>(r: Run<T>, s: State<T>, a: Action, i: nat, t: nat)
    requires r.Valid() && Warps(r.threads) > 1 && Control(r, s) && Enabled(r, s, a) && t < r.threads
    requires NotAhead(i, t, s.threads[t]) && (Moves(a, t) ==> Behind(i, t, s.threads[t]))
    ensures
      var warps, th, th' := Warps(r.threads), s.threads[t], Apply(r, s, a).threads[t];
      && NotAhead(i, t, th')
      && if Moves(a, t) then Lag(warps, i, t, th') < Lag(warps, i, t, th) else Lag(warps, i, t, th') == Lag(warps, i, t, th)
  {
    if Moves(a, t) {
      StepAdvances(r, s, a, t);
      LagFalls(Warps(r.threads), i, t, s.threads[t], Apply(r, s, a).threads[t]);
    } else {
      OthersStay(r, s, a, t);
    }
  }

  lemma StepCatchesUp<T(!new)>(r: Run<T>, s: State<T>, a: Action, i: nat, v: nat)
    requires r.Valid() && Warps(r.threads) > 1 && Control(r, s) && Enabled(r, s, a) && v < r.threads && Moves(a, v)
    requires NoneAhead(i, s.threads)
    requires forall t :: 0 <= t < r.threads && Moves(a, t) ==> Behind(i, t, s.threads[t])
    ensures NoneAhead(i, Apply(r, s, a).threads)
    ensures TotalLag(Warps(r.threads), i, Apply(r, s, a).threads) < TotalLag(Warps(r.threads), i, s.threads)
  {
    forall t | 0 <= t < r.threads
      ensures NotAhead(i, t, Apply(r, s, a).threads[t])
      ensures Lag(Warps(r.threads), i, t, Apply(r, s, a).threads[t]) <= Lag(Warps(r.threads), i, t, s.threads[t])
    {
      CaughtUp(r, s, a, i, t);
    }
    CaughtUp(r, s, a, i, v);
    SumFalls(Lags(Warps(r.threads), i, s.threads), Lags(Warps(r.threads), i, Apply(r, s, a).threads));
  }

  // Everyone not ahead can be driven to their places.
  lemma {:induction false} DriveToPlaces<T(!new)>(r: Run<T>, s: State<T>, i: nat) returns (schedule: seq<Action>)
    requires r.Valid() && Warps(r.threads) > 1 && Control(r, s)
    requires NoneAhead(i, s.threads)
    ensures Possible(r, s, schedule) && Waits(r, s, schedule) && AllInPlace(i, After(r, s, schedule).threads)
    decreases TotalLag(Warps(r.threads), i, s.threads)
  {
    schedule := [];
    if u :| 0 <= u < r.threads && Behind(i, u, s.threads[u]) {
      var a, v := CanCatchUp(r, s, i, u);
      StepKeepsControl(r, s, a);
      StepCatchesUp(r, s, a, i, v);
      var rest := DriveToPlaces(r, Apply(r, s, a), i);
      schedule := [a] + rest;
      assert schedule[1..] == rest;
    }
  }

  // When calls i and i + 1 use one buffer, a thread of warp 0 comes to overwrite slot 0 in call i + 1 while
  // a thread of warp 1 still has to read it in call i.
  lemma SameBufferRaces<T(!new)>(r: Run<T>, s: State<T>, i: nat) returns (schedule: seq<Action>)
    requires r.Valid() && Warps(r.threads) > 1 && Initial(r, s) && r.Buffer(i) == r.Buffer(i + 1)
    ensures Possible(r, s, schedule) && Waits(r, s, schedule) && !RaceFree(r, After(r, s, schedule), false)
    ensures Enabled(r, After(r, s, schedule), Publish(0)) && Gathered(r, After(r, s, schedule), Publish(0))
  {
    schedule := DriveToPlaces(r, s, i);
    var s' := After(r, s, schedule);
    var u, t := Member(0, 0), Member(1, 0);
    assert u == 0 && t < r.threads by {
      var n := Lanes(r.threads, 1);
    }
    assert InPlace(i, u, s'.threads[u]) && InPlace(i, t, s'.threads[t]);
    assert WillWrite(r, s', u, r.Buffer(i), 0) && WillRead(r, s', t, r.Buffer(i), 0);
    assert Conflict(r, s', t, u, r.Buffer(i), 0, false);
  }

  ghost predicate AlwaysRaceFree<T(!new)>(r: Run<T>, s: State<T>)
    requires r.Valid() && Initial(r, s)
  {
    forall schedule :: Possible(r, s, schedule) && Waits(r, s, schedule) ==> RaceFree(r, After(r, s, schedule), false)
  }

  // A block with several warps is free of races in every schedule of calls, with warp reductions that wait for
  // their lanes, exactly when consecutive calls take different buffers.
  lemma AlternationIsExact<T(!new)>(r: Run<T>, s: State<T>)
    requires r.Valid() && Warps(r.threads) > 1 && Initial(r, s)
    ensures AlwaysRaceFree(r, s) <==> r.Alternates()
  {
    if r.Alternates() {
      forall schedule | Possible(r, s, schedule) && Waits(r, s, schedule)
        ensures RaceFree(r, After(r, s, schedule), false)
      {
        EveryScheduleIsSafe(r, s, schedule, false);
      }
    } else {
      var i: nat, j: nat :| j == i + 1 && r.Buffer(i) == r.Buffer(j);
      var schedule := SameBufferRaces(r, s, i);
    }
  }
}
