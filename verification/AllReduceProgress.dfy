// Runs of AllReduce that stop after n calls (acl_cub/aclcub.hpp:338-349): each ends, with n results in every
// thread.
module AllReduceProgress {
  import opened Arithmetic
  import opened WarpGeometry
  import opened AllReduceProtocol
  import opened AllReduceNecessity

  // The action is one of the first n calls.
  ghost predicate First<T>(s: State<T>, a: Action, n: nat) {
    forall t :: 0 <= t < |s.threads| && Moves(a, t) ==> s.threads[t].iter < n
  }

  // No thread starts call n.
  ghost predicate Stops<T(!new)>(r: Run<T>, s: State<T>, schedule: seq<Action>, n: nat)
    requires r.Valid() && Shape(r, s) && Possible(r, s, schedule)
    decreases |schedule|
  {
    |schedule| == 0 || (First(s, schedule[0], n) && Stops(r, Apply(r, s, schedule[0]), schedule[1..], n))
  }

  predicate Within<T>(n: nat, th: Thread<T>) {
    th.iter < n || (th.iter == n && th.pc.Start?)
  }

  ghost predicate AllWithin<T>(n: nat, threads: seq<Thread<T>>) {
    forall t :: 0 <= t < |threads| ==> Within(n, threads[t])
  }

  // The actions a thread still has to take, or more.
  function Left<T>(warps: nat, n: nat, th: Thread<T>): nat {
    var left := (n - th.iter) * (warps + 4) - Rank(th.pc);
    if th.iter >= n || left < 0 then 0 else left
  }

  function Lefts<T>(warps: nat, n: nat, threads: seq<Thread<T>>): (r: seq<nat>)
    ensures |r| == |threads| && forall t :: 0 <= t < |r| ==> r[t] == Left(warps, n, threads[t])
  {
    seq(|threads|, t requires 0 <= t < |threads| => Left(warps, n, threads[t]))
  }

  function TotalLeft<T>(r: Run<T>, s: State<T>, n: nat): nat {
    Sum(Lefts(Warps(r.threads), n, s.threads))
  }

  lemma LeftFalls<T>(warps: nat, n: nat, th: Thread<T>, th': Thread<T>)
    requires th.iter < n && Rank(th.pc) <= warps + 3
    requires (th'.iter == th.iter && Rank(th'.pc) == Rank(th.pc) + 1) || (th'.iter == th.iter + 1 && th'.pc.Start?)
    ensures Within(n, th') && Left(warps, n, th') < Left(warps, n, th)
  {
    var k := warps + 4;
    assert (n - th.iter) * k == (n - th.iter - 1) * k + k;
    MulMonotone(0, n - th.iter - 1, k);
  }

  // What the invariant says of control alone.
  lemma InvControls<T>(r: Run<T>, s: State<T>, fenced: bool)
    requires r.Valid() && Inv(r, s, fenced) && Warps(r.threads) > 1
    ensures Control(r, s)
  {
    forall t | 0 <= t < r.threads
      ensures PcOk(r, s.threads[t])
    {
      assert ThreadOk(r, t, s.threads[t]);
    }
  }

  // A single warp has no collective, and no thread inside a call.
  lemma NoCollective<T(!new)>(r: Run<T>, s: State<T>, w: nat, fenced: bool)
    requires r.Valid() && Inv(r, s, fenced) && Warps(r.threads) == 1
    ensures !Enabled(r, s, Collective(w))
  {
    if w == 0 {
      var n := Lanes(r.threads, w);
      assert ThreadOk(r, Member(w, 0), s.threads[Member(w, 0)]);
    }
  }

  lemma OnlyAlone<T(!new)>(r: Run<T>, s: State<T>, a: Action, t: nat, fenced: bool)
    requires r.Valid() && Inv(r, s, fenced) && Warps(r.threads) == 1 && Enabled(r, s, a) && t < r.threads && Moves(a, t)
    ensures a == Alone(t) && s.threads[t].pc.Start?
  {
    assert ThreadOk(r, t, s.threads[t]);
    NoCollective(r, s, WarpOf(t), fenced);
  }

  lemma MovedLeft<T(!new)>(r: Run<T>, s: State<T>, a: Action, n: nat, t: nat, fenced: bool)
    requires r.Valid() && Inv(r, s, fenced) && Enabled(r, s, a) && First(s, a, n) && t < r.threads && Moves(a, t)
    ensures
      var warps, th' := Warps(r.threads), Apply(r, s, a).threads[t];
      Within(n, th') && Left(warps, n, th') < Left(warps, n, s.threads[t])
  {
    if Warps(r.threads) > 1 {
      InvControls(r, s, fenced);
      StepAdvances(r, s, a, t);
    } else {
      OnlyAlone(r, s, a, t, fenced);
    }
    LeftFalls(Warps(r.threads), n, s.threads[t], Apply(r, s, a).threads[t]);
  }

  // Every action moves some thread.
  lemma SomeMoves<T(!new)>(r: Run<T>, s: State<T>, a: Action) returns (t: nat)
    requires r.Valid() && Shape(r, s) && Enabled(r, s, a)
    ensures t < r.threads && Moves(a, t)
  {
    if a.Collective? {
      var n := Lanes(r.threads, a.w);
      t := Member(a.w, 0);
    } else {
      t := a.t;
    }
  }

  lemma StepLeaves<T(!new)>(r: Run<T>, s: State<T>, a: Action, n: nat, fenced: bool)
    requires r.Valid() && Inv(r, s, fenced) && Enabled(r, s, a) && First(s, a, n) && AllWithin(n, s.threads)
    ensures AllWithin(n, Apply(r, s, a).threads) && TotalLeft(r, Apply(r, s, a), n) < TotalLeft(r, s, n)
  {
    var s' := Apply(r, s, a);
    forall t | 0 <= t < r.threads
      ensures Within(n, s'.threads[t]) && Left(Warps(r.threads), n, s'.threads[t]) <= Left(Warps(r.threads), n, s.threads[t])
    {
      if Moves(a, t) {
        MovedLeft(r, s, a, n, t, fenced);
      } else {
        OthersStay(r, s, a, t);
      }
    }
    var v := SomeMoves(r, s, a);
    MovedLeft(r, s, a, n, v, fenced);
    SumFalls(Lefts(Warps(r.threads), n, s.threads), Lefts(Warps(r.threads), n, s'.threads));
  }

  // Each action of the first n calls leaves fewer.
  lemma {:induction false} ScheduleLeaves<T(!new)>(r: Run<T>, s: State<T>, schedule: seq<Action>, n: nat, fenced: bool)
    requires r.Valid() && Reusable(r, fenced) && Inv(r, s, fenced) && Possible(r, s, schedule)
    requires (fenced ==> AllFenced(r, s, schedule)) && Stops(r, s, schedule, n) && AllWithin(n, s.threads)
    ensures Inv(r, After(r, s, schedule), fenced) && AllWithin(n, After(r, s, schedule).threads)
    ensures |schedule| + TotalLeft(r, After(r, s, schedule), n) <= TotalLeft(r, s, n)
    decreases |schedule|
  {
    if |schedule| > 0 {
      StepKeepsInv(r, s, schedule[0], fenced);
      StepLeaves(r, s, schedule[0], n, fenced);
      ScheduleLeaves(r, Apply(r, s, schedule[0]), schedule[1..], n, fenced);
    }
  }

  lemma InitialLeft<T>(r: Run<T>, s: State<T>, n: nat)
    requires r.Valid() && Initial(r, s)
    ensures AllWithin(n, s.threads) && TotalLeft(r, s, n) <= r.threads * (n * (Warps(r.threads) + 4))
  {
    SumBound(Lefts(Warps(r.threads), n, s.threads), n * (Warps(r.threads) + 4));
  }

  // Every thread has returned n times, with the results of its calls.
  ghost predicate Finished<T>(r: Run<T>, s: State<T>, n: nat)
    requires r.Valid() && Shape(r, s)
  {
    forall t :: 0 <= t < r.threads ==>
      |s.threads[t].results| == n && forall i :: 0 <= i < n ==> s.threads[t].results[i] == r.Result(i, t)
  }

  // A run of n calls is over exactly when every thread is back from all of them; until then an action of the
  // least call waits for nothing.
  lemma OverExactly<T(!new)>(r: Run<T>, s: State<T>, n: nat, fenced: bool)
    requires r.Valid() && Inv(r, s, fenced) && AllWithin(n, s.threads)
    ensures Finished(r, s, n) <==> forall a :: Enabled(r, s, a) ==> !First(s, a, n)
    ensures !Finished(r, s, n) ==> exists a :: Enabled(r, s, a) && Gathered(r, s, a) && Fenced(r, s, a) && First(s, a, n)
  {
    if Finished(r, s, n) {
      forall a | Enabled(r, s, a)
        ensures !First(s, a, n)
      {
        var t := SomeMoves(r, s, a);
        assert ThreadOk(r, t, s.threads[t]);
      }
    } else {
      var t := Unfinished(r, s, n, fenced);
      var a := InvCanStep(r, s, fenced);
      assert First(s, a, n);
    }
  }

  lemma Unfinished<T>(r: Run<T>, s: State<T>, n: nat, fenced: bool) returns (t: nat)
    requires r.Valid() && Inv(r, s, fenced) && AllWithin(n, s.threads) && !Finished(r, s, n)
    ensures t < r.threads && s.threads[t].iter < n
  {
    t :| t < r.threads && !(|s.threads[t].results| == n && forall i :: 0 <= i < n ==> s.threads[t].results[i] == r.Result(i, t));
    assert ThreadOk(r, t, s.threads[t]);
  }

  // Every run of n calls ends: it has at most so many actions, and can stop only when each thread has the n
  // results of its calls.
  lemma CallsComplete<T(!new)>(r: Run<T>, s: State<T>, schedule: seq<Action>, n: nat, fenced: bool)
    requires r.Valid() && Reusable(r, fenced) && Initial(r, s) && Possible(r, s, schedule)
    requires (fenced ==> AllFenced(r, s, schedule)) && Stops(r, s, schedule, n)
    ensures |schedule| <= r.threads * (n * (Warps(r.threads) + 4))
    ensures
      var s' := After(r, s, schedule);
      && (Finished(r, s', n) <==> forall a :: Enabled(r, s', a) ==> !First(s', a, n))
      && (!Finished(r, s', n) ==> exists a :: Enabled(r, s', a) && Gathered(r, s', a) && Fenced(r, s', a) && First(s', a, n))
  {
    InitialInv(r, s, fenced);
    InitialLeft(r, s, n);
    ScheduleLeaves(r, s, schedule, n, fenced);
    OverExactly(r, After(r, s, schedule), n, fenced);
  }
}
