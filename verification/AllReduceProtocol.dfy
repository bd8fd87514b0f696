// The double-buffered AllReduce of acl_cub/aclcub.hpp:338-349 as a transition system.
//
// Every thread of a block runs the calls one after the other, with no barrier except the one inside
// AllReduceDB.  A schedule is an arbitrary sequence of atomic actions; the shared state is
// warp_aggregates[2][kWarps].  The first warp reduction reads no shared memory and is taken as the fold of
// the warp's inputs; the schedules include those in which it waits for the lanes of the warp, and progress is
// shown for them.  The second-level warp fold is a collective of all lanes of one warp.
module AllReduceProtocol {
  import opened Arithmetic
  import opened Folds
  import opened WarpGeometry

  // FOLD 1 and FOLD 2 of aclcub.hpp:346-347.
  datatype Strategy = SerialFold | WarpFold

  // FOLD 0: BoolConst<(kWarps <= 4)> of aclcub.hpp:318-320.
  function AutoStrategy(threads: nat): Strategy {
    if Warps(threads) <= 4 then SerialFold else WarpFold
  }

  // One kernel run: block size, operator tag, fold strategy, the `iter` argument of the i-th reuse of the
  // storage, and the value each warp publishes at the i-th reuse.
  datatype Run<!T> = Run(threads: nat, op: (T, T) -> T, identity: T, strategy: Strategy,
                         iter: nat -> int, aggregate: (nat, nat) -> T)
  {
    // kWarps <= kWarpSize is the static_assert of aclcub.hpp:208.
    ghost predicate Valid() {
      threads > 0 && Warps(threads) <= WARP_SIZE
    }

    // The contract on `iter` (aclcub.hpp:247-248): it grows by one at each reuse.
    ghost predicate IterContract() {
      forall i: nat :: iter(i) == iter(0) + i
    }

    // What the double buffering needs of it: consecutive reuses take different buffers.
    ghost predicate Alternates() {
      forall i: nat, j: nat :: j == i + 1 ==> Buffer(i) != Buffer(j)
    }

    lemma ContractAlternates()
      requires IterContract()
      ensures Alternates()
    {
      forall i: nat, j: nat | j == i + 1
        ensures Buffer(i) != Buffer(j)
      {
        assert iter(i) == iter(0) + i && iter(j) == iter(0) + j;
      }
    }

    // p = iter & 1: the low bit of a two's complement integer is its remainder modulo 2.
    function Buffer(i: nat): (p: nat)
      ensures p < 2
    {
      iter(i) % 2
    }

    // The published aggregates of warps 0..n.
    function Aggregates(i: nat, n: nat): (r: seq<T>)
      ensures |r| == n
      ensures forall w :: 0 <= w < n ==> r[w] == aggregate(i, w)
    {
      seq(n, w requires 0 <= w < n => aggregate(i, w))
    }

    // What lane l of a warp contributes to the second-level warp fold (aclcub.hpp:305-306).
    function LaneValue(i: nat, l: nat): T {
      if l < Warps(threads) then aggregate(i, l) else identity
    }

    function LaneValues(i: nat, n: nat): (r: seq<T>)
      ensures |r| == n
      ensures forall l :: 0 <= l < n ==> r[l] == LaneValue(i, l)
    {
      seq(n, l requires 0 <= l < n => LaneValue(i, l))
    }

    // What thread t gets at reuse i.
    function Result(i: nat, t: nat): T
      requires Valid() && t < threads
    {
      if Warps(threads) == 1 || strategy.SerialFold?
      then Fold(op, Aggregates(i, Warps(threads)))
      else Fold(op, LaneValues(i, Lanes(threads, WarpOf(t))))
    }
  }

  // Where a thread is inside the call: before publishing; published; arrived at the barrier; past the
  // barrier; FoldSerial with slots 0..next combined; FoldWarp with its lane's value loaded.
  datatype Pc<T> = Start | Published | Arrived | Entered | Folding(next: nat, acc: T) | Loaded(value: T)

  datatype Thread<T> = Thread(iter: nat, pc: Pc<T>, results: seq<T>) {
    // Barriers passed, barriers arrived at, and warp aggregates published, over the whole run so far.
    function Passed(): nat {
      if pc.Entered? || pc.Folding? || pc.Loaded? then iter + 1 else iter
    }

    function ArrivedAt(): nat {
      if pc.Start? || pc.Published? then iter else iter + 1
    }

    function PublishedTo(): nat {
      if pc.Start? then iter else iter + 1
    }

    function Return(result: T): Thread<T> {
      Thread(iter + 1, Start, results + [result])
    }
  }

  datatype State<T> = State(threads: seq<Thread<T>>, slots: seq<seq<T>>)

  datatype Action =
    | Alone(t: nat)        // kWarps == 1: the warp reduction is the result (aclcub.hpp:341)
    | Publish(t: nat)      // lane 0 writes its warp's slot (344)
    | Arrive(t: nat)       // reach asc_syncthreads (345)
    | Leave(t: nat)        // pass it once every thread has reached it
    | Read(t: nat)         // read one slot (297-300, 305)
    | Finish(t: nat)       // FoldSerial returns (301)
    | Collective(w: nat)   // the lanes of a warp complete FoldWarp together (307)

  ghost predicate Shape<T>(r: Run<T>, s: State<T>) {
    |s.threads| == r.threads && |s.slots| == 2 &&
    |s.slots[0]| == |s.slots[1]| == Warps(r.threads)
  }

  // Any storage contents; no thread has started.
  ghost predicate Initial<T>(r: Run<T>, s: State<T>) {
    Shape(r, s) && forall t :: 0 <= t < r.threads ==> s.threads[t] == Thread(0, Start, [])
  }

  ghost predicate WarpReady<T>(s: State<T>, w: nat, n: nat)
    requires n <= WARP_SIZE && forall l :: 0 <= l < n ==> Member(w, l) < |s.threads|
  {
    forall l :: 0 <= l < n ==> s.threads[Member(w, l)].pc.Loaded? &&
                               s.threads[Member(w, l)].iter == s.threads[Member(w, 0)].iter
  }

  ghost predicate Enabled<T(!new)>(r: Run<T>, s: State<T>, a: Action)
    requires r.Valid() && Shape(r, s)
  {
    match a
    case Alone(t) => t < r.threads && Warps(r.threads) == 1 && s.threads[t].pc.Start?
    case Publish(t) => t < r.threads && Warps(r.threads) > 1 && s.threads[t].pc.Start?
    case Arrive(t) => t < r.threads && s.threads[t].pc.Published?
    case Leave(t) => t < r.threads && s.threads[t].pc.Arrived? &&
                     forall u :: 0 <= u < r.threads ==> s.threads[t].ArrivedAt() <= s.threads[u].ArrivedAt()
    case Read(t) => t < r.threads && (s.threads[t].pc.Entered? ||
                                      (s.threads[t].pc.Folding? && s.threads[t].pc.next < Warps(r.threads)))
    case Finish(t) => t < r.threads && s.threads[t].pc.Folding? && s.threads[t].pc.next == Warps(r.threads)
    case Collective(w) => w < Warps(r.threads) && WarpReady(s, w, Lanes(r.threads, w))
  }

  function ReadSlot<T>(r: Run<T>, s: State<T>, t: nat): Pc<T>
    requires r.Valid() && Shape(r, s) && t < r.threads
    requires s.threads[t].pc.Entered? || (s.threads[t].pc.Folding? && s.threads[t].pc.next < Warps(r.threads))
  {
    var slots := s.slots[r.Buffer(s.threads[t].iter)];
    var pc := s.threads[t].pc;
    if pc.Folding? then Folding(pc.next + 1, r.op(pc.acc, slots[pc.next]))
    else if r.strategy.SerialFold? then Folding(1, slots[0])
    else Loaded(if LaneOf(t) < Warps(r.threads) then slots[LaneOf(t)] else r.identity)
  }

  // The values the lanes of a warp bring to the collective.
  function WarpValues<T>(r: Run<T>, s: State<T>, w: nat): (v: seq<T>)
    requires r.Valid() && Shape(r, s) && w < Warps(r.threads) && WarpReady(s, w, Lanes(r.threads, w))
    ensures |v| == Lanes(r.threads, w)
    ensures forall l :: 0 <= l < |v| ==> v[l] == s.threads[Member(w, l)].pc.value
  {
    seq(Lanes(r.threads, w), l requires 0 <= l < Lanes(r.threads, w) => s.threads[Member(w, l)].pc.value)
  }

  function SetPc<T>(s: State<T>, t: nat, pc: Pc<T>): State<T>
    requires t < |s.threads|
  {
    s.(threads := s.threads[t := s.threads[t].(pc := pc)])
  }

  function Apply<T(!new)>(r: Run<T>, s: State<T>, a: Action): (s': State<T>)
    requires r.Valid() && Shape(r, s) && Enabled(r, s, a)
    ensures Shape(r, s')
  {
    match a
    case Alone(t) => s.(threads := s.threads[t := s.threads[t].Return(r.aggregate(s.threads[t].iter, 0))])
    case Publish(t) =>
      var p := r.Buffer(s.threads[t].iter);
      var w := WarpOf(t);
      var written := if LaneOf(t) == 0 then s.slots[p := s.slots[p][w := r.aggregate(s.threads[t].iter, w)]]
                     else s.slots;
      SetPc(s, t, Published).(slots := written)
    case Arrive(t) => SetPc(s, t, Arrived)
    case Leave(t) => SetPc(s, t, Entered)
    case Read(t) => SetPc(s, t, ReadSlot(r, s, t))
    case Finish(t) => s.(threads := s.threads[t := s.threads[t].Return(s.threads[t].pc.acc)])
    case Collective(w) =>
      var result := Fold(r.op, WarpValues(r, s, w));
      s.(threads := seq(r.threads, t requires 0 <= t < r.threads =>
                          if WarpOf(t) == w then s.threads[t].Return(result) else s.threads[t]))
  }

  // A schedule is possible from s when each action is enabled where it is taken.
  ghost predicate Possible<T(!new)>(r: Run<T>, s: State<T>, schedule: seq<Action>)
    requires r.Valid() && Shape(r, s)
    decreases |schedule|
  {
    |schedule| == 0 ||
    (Enabled(r, s, schedule[0]) && Possible(r, Apply(r, s, schedule[0]), schedule[1..]))
  }

  ghost function After<T(!new)>(r: Run<T>, s: State<T>, schedule: seq<Action>): (s': State<T>)
    requires r.Valid() && Shape(r, s) && Possible(r, s, schedule)
    ensures Shape(r, s')
    decreases |schedule|
  {
    if |schedule| == 0 then s else After(r, Apply(r, s, schedule[0]), schedule[1..])
  }

  // The first warp reduction has what it waits for: every lane of the thread's warp has come to this call.
  ghost predicate Gathered<T>(r: Run<T>, s: State<T>, a: Action)
    requires Shape(r, s)
  {
    (a.Alone? || a.Publish?) && a.t < r.threads ==>
      forall u :: 0 <= u < r.threads && WarpOf(u) == WarpOf(a.t) ==> s.threads[a.t].iter <= s.threads[u].iter
  }

  // Every warp reduction in the schedule has waited for its lanes.
  ghost predicate Waits<T(!new)>(r: Run<T>, s: State<T>, schedule: seq<Action>)
    requires r.Valid() && Shape(r, s) && Possible(r, s, schedule)
    decreases |schedule|
  {
    |schedule| == 0 || (Gathered(r, s, schedule[0]) && Waits(r, Apply(r, s, schedule[0]), schedule[1..]))
  }

  // The barrier a caller puts between two calls that use one buffer (aclcub.hpp:235-238): no thread starts a
  // call that some thread has not come to.
  ghost predicate Fenced<T>(r: Run<T>, s: State<T>, a: Action)
    requires Shape(r, s)
  {
    (a.Alone? || a.Publish?) && a.t < r.threads ==>
      forall u :: 0 <= u < r.threads ==> s.threads[a.t].iter <= s.threads[u].iter
  }

  ghost predicate AllFenced<T(!new)>(r: Run<T>, s: State<T>, schedule: seq<Action>)
    requires r.Valid() && Shape(r, s) && Possible(r, s, schedule)
    decreases |schedule|
  {
    |schedule| == 0 || (Fenced(r, s, schedule[0]) && AllFenced(r, Apply(r, s, schedule[0]), schedule[1..]))
  }

  // Storage is safe to use again behind a fence, or when consecutive calls take different buffers.
  ghost predicate Reusable<T>(r: Run<T>, fenced: bool) {
    fenced || r.Alternates()
  }

  // ----- Invariant ------------------------------------------------------------------------------

  // A thread's own data: its past results and the values it has combined or loaded so far.
  ghost predicate ThreadOk<T>(r: Run<T>, t: nat, th: Thread<T>)
    requires r.Valid() && t < r.threads
  {
    && |th.results| == th.iter
    && (forall i :: 0 <= i < th.iter ==> th.results[i] == r.Result(i, t))
    && (Warps(r.threads) == 1 ==> th.pc.Start?)
    && (th.pc.Folding? ==> r.strategy.SerialFold? && 0 < th.pc.next <= Warps(r.threads) &&
                           th.pc.acc == Fold(r.op, r.Aggregates(th.iter, th.pc.next)))
    && (th.pc.Loaded? ==> r.strategy.WarpFold? && th.pc.value == r.LaneValue(th.iter, LaneOf(t)))
  }

  // The slots of warp w hold the last two aggregates it published; behind a fence, the last.
  ghost predicate SlotsOk<T>(r: Run<T>, s: State<T>, w: nat, fenced: bool)
    requires r.Valid() && Shape(r, s) && w < Warps(r.threads)
  {
    var n := s.threads[Member(w, 0)].PublishedTo();
    && (n >= 1 ==> s.slots[r.Buffer(n - 1)][w] == r.aggregate(n - 1, w))
    && (n >= 2 && !fenced ==> s.slots[r.Buffer(n - 2)][w] == r.aggregate(n - 2, w))
  }

  // No thread has passed a barrier some thread has not reached.
  ghost predicate Synchronised<T>(s: State<T>) {
    forall t, u :: 0 <= t < |s.threads| && 0 <= u < |s.threads| ==>
                     s.threads[t].Passed() <= s.threads[u].ArrivedAt()
  }

  // With the warp fold, the lanes of a warp return together.
  ghost predicate WarpsTogether<T>(s: State<T>) {
    forall t, u :: 0 <= t < |s.threads| && 0 <= u < |s.threads| && WarpOf(t) == WarpOf(u) ==>
                     s.threads[t].iter == s.threads[u].iter
  }

  // No thread has published for a call while another was in an earlier one.
  ghost predicate InOneCall<T>(s: State<T>) {
    forall t, u :: 0 <= t < |s.threads| && 0 <= u < |s.threads| ==> s.threads[t].PublishedTo() <= s.threads[u].iter + 1
  }

  ghost predicate Inv<T>(r: Run<T>, s: State<T>, fenced: bool)
    requires r.Valid()
  {
    && Shape(r, s)
    && (forall t :: 0 <= t < r.threads ==> ThreadOk(r, t, s.threads[t]))
    && (Warps(r.threads) > 1 ==>
          && Synchronised(s)
          && (forall w :: 0 <= w < Warps(r.threads) ==> SlotsOk(r, s, w, fenced))
          && (fenced ==> InOneCall(s))
          && (r.strategy.WarpFold? ==> WarpsTogether(s)))
  }

  // A thread that may read sees, in every slot, the aggregate of its own iteration.
  lemma SlotsVisible<T>(r: Run<T>, s: State<T>, t: nat, w: nat, fenced: bool)
    requires r.Valid() && Reusable(r, fenced) && Inv(r, s, fenced) && Warps(r.threads) > 1
    requires t < r.threads && w < Warps(r.threads)
    requires s.threads[t].Passed() == s.threads[t].iter + 1
    ensures s.slots[r.Buffer(s.threads[t].iter)][w] == r.aggregate(s.threads[t].iter, w)
  {
    var u := Member(w, 0);
    assert s.threads[t].Passed() <= s.threads[u].ArrivedAt();
    assert s.threads[u].Passed() <= s.threads[t].ArrivedAt();
    assert SlotsOk(r, s, w, fenced);
  }

  lemma ReadKeepsThreadOk<T(!new)>(r: Run<T>, s: State<T>, t: nat, fenced: bool)
    requires r.Valid() && Reusable(r, fenced) && Inv(r, s, fenced) && t < r.threads && Enabled(r, s, Read(t))
    ensures ThreadOk(r, t, s.threads[t].(pc := ReadSlot(r, s, t)))
  {
    var th := s.threads[t];
    assert ThreadOk(r, t, th);
    if th.pc.Folding? {
      SlotsVisible(r, s, t, th.pc.next, fenced);
      assert r.Aggregates(th.iter, th.pc.next + 1)[..th.pc.next] == r.Aggregates(th.iter, th.pc.next);
    } else if r.strategy.SerialFold? {
      SlotsVisible(r, s, t, 0, fenced);
    } else if LaneOf(t) < Warps(r.threads) {
      SlotsVisible(r, s, t, LaneOf(t), fenced);
    }
  }

  lemma PublishKeepsSlotsOk<T(!new)>(r: Run<T>, s: State<T>, t: nat, w: nat, fenced: bool)
    requires r.Valid() && Reusable(r, fenced) && Inv(r, s, fenced) && t < r.threads && Enabled(r, s, Publish(t))
    requires w < Warps(r.threads)
    ensures SlotsOk(r, Apply(r, s, Publish(t)), w, fenced)
  {
    assert SlotsOk(r, s, w, fenced);
    var i := s.threads[t].iter;
    assert !fenced && i > 0 ==> r.Buffer(i - 1) != r.Buffer(i);
  }

  lemma CollectiveResult<T(!new)>(r: Run<T>, s: State<T>, w: nat, t: nat, fenced: bool)
    requires r.Valid() && Inv(r, s, fenced) && Enabled(r, s, Collective(w)) && t < r.threads && WarpOf(t) == w
    requires Warps(r.threads) > 1
    ensures Fold(r.op, WarpValues(r, s, w)) == r.Result(s.threads[t].iter, t)
    ensures s.threads[t].pc.Loaded?
  {
    var n := Lanes(r.threads, w);
    var i := s.threads[t].iter;
    assert t == Member(w, LaneOf(t));
    forall l | 0 <= l < n
      ensures s.threads[Member(w, l)].pc.value == r.LaneValue(i, l)
    {
      assert ThreadOk(r, Member(w, l), s.threads[Member(w, l)]);
    }
    assert ThreadOk(r, t, s.threads[t]);
    assert WarpValues(r, s, w) == r.LaneValues(i, n);
  }

  // The thread an action moves; a collective moves its whole warp.
  predicate Moves(a: Action, t: nat) {
    if a.Collective? then WarpOf(t) == a.w else t == a.t
  }

  lemma OthersStay<T(!new)>(r: Run<T>, s: State<T>, a: Action, t: nat)
    requires r.Valid() && Shape(r, s) && Enabled(r, s, a) && t < r.threads && !Moves(a, t)
    ensures Apply(r, s, a).threads[t] == s.threads[t]
  {
  }

  lemma MovedThreadOk<T(!new)>(r: Run<T>, s: State<T>, a: Action, t: nat, fenced: bool)
    requires r.Valid() && Reusable(r, fenced) && Inv(r, s, fenced) && Enabled(r, s, a) && t < r.threads && Moves(a, t)
    ensures ThreadOk(r, t, Apply(r, s, a).threads[t])
  {
    assert ThreadOk(r, t, s.threads[t]);
    match a
    case Alone(_) => assert r.Aggregates(s.threads[t].iter, 1)[0] == r.aggregate(s.threads[t].iter, 0);
    case Read(_) => ReadKeepsThreadOk(r, s, t, fenced);
    case Collective(w) =>
      assert s.threads[Member(w, 0)].pc.Loaded?;
      assert ThreadOk(r, Member(w, 0), s.threads[Member(w, 0)]);
      CollectiveResult(r, s, w, t, fenced);
    case _ =>
  }

  // Only publishing changes the slots, or what a warp has published.
  lemma PublishedStays<T(!new)>(r: Run<T>, s: State<T>, a: Action, u: nat, fenced: bool)
    requires r.Valid() && Inv(r, s, fenced) && Enabled(r, s, a) && u < r.threads && Warps(r.threads) > 1 && !a.Publish?
    ensures Apply(r, s, a).threads[u].PublishedTo() == s.threads[u].PublishedTo() && Apply(r, s, a).slots == s.slots
  {
    if !Moves(a, u) {
      OthersStay(r, s, a, u);
    } else if a.Collective? {
      CollectiveResult(r, s, a.w, u, fenced);
    }
  }

  lemma StepKeepsSlots<T(!new)>(r: Run<T>, s: State<T>, a: Action, w: nat, fenced: bool)
    requires r.Valid() && Reusable(r, fenced) && Inv(r, s, fenced) && Enabled(r, s, a) && w < Warps(r.threads)
    requires Warps(r.threads) > 1
    ensures SlotsOk(r, Apply(r, s, a), w, fenced)
  {
    assert SlotsOk(r, s, w, fenced);
    if a.Publish? {
      PublishKeepsSlotsOk(r, s, a.t, w, fenced);
    } else {
      PublishedStays(r, s, a, Member(w, 0), fenced);
    }
  }

  // How one action moves a thread's counts: arrivals never fall, and only Leave passes a barrier.
  lemma CountsAfter<T(!new)>(r: Run<T>, s: State<T>, a: Action, t: nat, fenced: bool)
    requires r.Valid() && Inv(r, s, fenced) && Enabled(r, s, a) && Warps(r.threads) > 1 && t < r.threads
    ensures s.threads[t].ArrivedAt() <= Apply(r, s, a).threads[t].ArrivedAt()
    ensures Apply(r, s, a).threads[t].Passed() ==
            if a == Leave(t) then s.threads[t].ArrivedAt() else s.threads[t].Passed()
  {
    if !Moves(a, t) {
      OthersStay(r, s, a, t);
    } else if a.Collective? {
      CollectiveResult(r, s, a.w, t, fenced);
    }
  }

  lemma StepKeepsSynchronised<T(!new)>(r: Run<T>, s: State<T>, a: Action, fenced: bool)
    requires r.Valid() && Inv(r, s, fenced) && Enabled(r, s, a) && Warps(r.threads) > 1
    ensures Synchronised(Apply(r, s, a))
  {
    var s' := Apply(r, s, a);
    forall t, u | 0 <= t < r.threads && 0 <= u < r.threads
      ensures s'.threads[t].Passed() <= s'.threads[u].ArrivedAt()
    {
      CountsAfter(r, s, a, t, fenced);
      CountsAfter(r, s, a, u, fenced);
    }
  }

  lemma StepKeepsWarpsTogether<T(!new)>(r: Run<T>, s: State<T>, a: Action, fenced: bool)
    requires r.Valid() && Reusable(r, fenced) && Inv(r, s, fenced) && Enabled(r, s, a) && Warps(r.threads) > 1
    requires r.strategy.WarpFold?
    ensures WarpsTogether(Apply(r, s, a))
  {
    forall t | 0 <= t < r.threads
      ensures !s.threads[t].pc.Folding?
    {
      assert ThreadOk(r, t, s.threads[t]);
    }
  }

  lemma StepKeepsInOneCall<T(!new)>(r: Run<T>, s: State<T>, a: Action)
    requires r.Valid() && Inv(r, s, true) && Enabled(r, s, a) && Fenced(r, s, a) && Warps(r.threads) > 1
    ensures InOneCall(Apply(r, s, a))
  {
    var s' := Apply(r, s, a);
    forall t, u | 0 <= t < r.threads && 0 <= u < r.threads
      ensures s'.threads[t].PublishedTo() <= s'.threads[u].iter + 1
    {
      assert s'.threads[u].iter >= s.threads[u].iter;
      assert s.threads[t].PublishedTo() <= s.threads[u].iter + 1;
      if a.Publish? && a.t == t {
        assert s.threads[t].iter <= s.threads[u].iter;
      } else if a.Publish? {
        OthersStay(r, s, a, t);
      } else {
        PublishedStays(r, s, a, t, true);
      }
    }
  }

  lemma StepKeepsInv<T(!new)>(r: Run<T>, s: State<T>, a: Action, fenced: bool)
    requires r.Valid() && Reusable(r, fenced) && Inv(r, s, fenced) && Enabled(r, s, a) && (fenced ==> Fenced(r, s, a))
    ensures Inv(r, Apply(r, s, a), fenced)
  {
    var s' := Apply(r, s, a);
    forall t | 0 <= t < r.threads
      ensures ThreadOk(r, t, s'.threads[t])
    {
      if Moves(a, t) {
        MovedThreadOk(r, s, a, t, fenced);
      } else {
        OthersStay(r, s, a, t);
        assert ThreadOk(r, t, s.threads[t]);
      }
    }
    if Warps(r.threads) > 1 {
      StepKeepsSynchronised(r, s, a, fenced);
      forall w | 0 <= w < Warps(r.threads)
        ensures SlotsOk(r, s', w, fenced)
      {
        StepKeepsSlots(r, s, a, w, fenced);
      }
      if r.strategy.WarpFold? {
        StepKeepsWarpsTogether(r, s, a, fenced);
      }
      if fenced {
        StepKeepsInOneCall(r, s, a);
      }
    }
  }

  lemma {:induction false} ScheduleKeepsInv<T(!new)>(r: Run<T>, s: State<T>, schedule: seq<Action>, fenced: bool)
    requires r.Valid() && Reusable(r, fenced) && Inv(r, s, fenced) && Possible(r, s, schedule)
    requires fenced ==> AllFenced(r, s, schedule)
    ensures Inv(r, After(r, s, schedule), fenced)
    decreases |schedule|
  {
    if |schedule| > 0 {
      StepKeepsInv(r, s, schedule[0], fenced);
      ScheduleKeepsInv(r, Apply(r, s, schedule[0]), schedule[1..], fenced);
    }
  }

  // ----- Main results ---------------------------------------------------------------------------

  // Thread t's next action writes slot w of buffer p.
  ghost predicate WillWrite<T>(r: Run<T>, s: State<T>, t: nat, p: nat, w: nat)
    requires r.Valid() && Shape(r, s) && t < r.threads
  {
    Warps(r.threads) > 1 && s.threads[t].pc.Start? && LaneOf(t) == 0 && w == WarpOf(t) &&
    p == r.Buffer(s.threads[t].iter)
  }

  // Thread t, in its current call, has not yet read slot w of buffer p and is going to.
  ghost predicate WillRead<T>(r: Run<T>, s: State<T>, t: nat, p: nat, w: nat)
    requires r.Valid() && Shape(r, s) && t < r.threads
  {
    && p == r.Buffer(s.threads[t].iter)
    && w < Warps(r.threads)
    && (match s.threads[t].pc
        case Folding(next, _) => next <= w
        case Loaded(_) => false
        case _ => r.strategy.SerialFold? || w == LaneOf(t))
  }

  // Thread u's next action, if it may be taken, writes a slot that thread t is also about to write, or is
  // reading past the barrier, or still has to read for another iteration.
  ghost predicate Conflict<T>(r: Run<T>, s: State<T>, t: nat, u: nat, p: nat, w: nat, fenced: bool)
    requires r.Valid() && Shape(r, s)
  {
    && t < r.threads && u < r.threads && t != u
    && WillWrite(r, s, u, p, w) && (fenced ==> Fenced(r, s, Publish(u)))
    && (WillWrite(r, s, t, p, w) ||
        (WillRead(r, s, t, p, w) &&
         (s.threads[t].iter != s.threads[u].iter || s.threads[t].Passed() > s.threads[t].iter)))
  }

  ghost predicate RaceFree<T>(r: Run<T>, s: State<T>, fenced: bool)
    requires r.Valid() && Shape(r, s)
  {
    forall t: nat, u: nat, p: nat, w: nat :: !Conflict(r, s, t, u, p, w, fenced)
  }

  lemma InitialInv<T>(r: Run<T>, s: State<T>, fenced: bool)
    requires r.Valid() && Initial(r, s)
    ensures Inv(r, s, fenced)
  {
  }

  // Parity double buffering keeps reused slots apart without any barrier between calls, and so does a fence.
  lemma InvExcludesConflict<T(!new)>(r: Run<T>, s: State<T>, t: nat, u: nat, p: nat, w: nat, fenced: bool)
    requires r.Valid() && Reusable(r, fenced) && Inv(r, s, fenced)
    ensures !Conflict(r, s, t, u, p, w, fenced)
  {
    if t < r.threads && u < r.threads && WillWrite(r, s, u, p, w) {
      assert s.threads[u].Passed() <= s.threads[t].ArrivedAt();
      assert s.threads[t].Passed() <= s.threads[u].ArrivedAt();
    }
  }

  // Some thread is in no later call than any other.
  lemma LeastCall<T>(threads: seq<Thread<T>>) returns (t: nat)
    requires |threads| > 0
    ensures t < |threads|
    ensures forall u :: 0 <= u < |threads| ==> threads[t].iter <= threads[u].iter
  {
    var calls := seq(|threads|, u requires 0 <= u < |threads| => threads[u].iter);
    t := LeastIndex(calls);
    assert forall u :: 0 <= u < |threads| ==> calls[u] == threads[u].iter;
  }

  // The threads the action moves are in no later call than any other.
  ghost predicate OfLeastCall<T>(s: State<T>, a: Action) {
    forall t, u :: 0 <= t < |s.threads| && 0 <= u < |s.threads| && Moves(a, t) ==> s.threads[t].iter <= s.threads[u].iter
  }

  // Such an action waits for no lane and no fence.
  lemma LeastCallWaits<T(!new)>(r: Run<T>, s: State<T>, a: Action)
    requires r.Valid() && Shape(r, s) && OfLeastCall(s, a)
    ensures Gathered(r, s, a) && Fenced(r, s, a)
  {
  }

  // The warp reduction, the barrier, the warp collective and a fence never deadlock: some action of the least
  // call that any thread is in is always enabled and waits for nothing.
  lemma InvCanStep<T(!new)>(r: Run<T>, s: State<T>, fenced: bool) returns (a: Action)
    requires r.Valid() && Inv(r, s, fenced)
    ensures Enabled(r, s, a) && Gathered(r, s, a) && Fenced(r, s, a) && OfLeastCall(s, a)
  {
    var first := LeastCall(s.threads);
    a := LeastStep(r, s, first, fenced);
    LeastCallWaits(r, s, a);
  }

  lemma LeastStep<T(!new)>(r: Run<T>, s: State<T>, first: nat, fenced: bool) returns (a: Action)
    requires r.Valid() && Inv(r, s, fenced)
    requires first < r.threads && forall u :: 0 <= u < r.threads ==> s.threads[first].iter <= s.threads[u].iter
    ensures Enabled(r, s, a) && OfLeastCall(s, a)
  {
    var call := s.threads[first].iter;
    if t :| 0 <= t < r.threads && s.threads[t].iter == call && !s.threads[t].pc.Arrived? && !s.threads[t].pc.Loaded? {
      a := OwnStep(r, s, t, fenced);
    } else if t :| 0 <= t < r.threads && s.threads[t].iter == call && s.threads[t].pc.Arrived? {
      a := Leave(t);
    } else {
      WarpWaits(r, s, first, fenced);
      a := Collective(WarpOf(first));
    }
  }

  // A thread that waits for nothing.
  lemma OwnStep<T(!new)>(r: Run<T>, s: State<T>, t: nat, fenced: bool) returns (a: Action)
    requires r.Valid() && Inv(r, s, fenced) && t < r.threads && !s.threads[t].pc.Arrived? && !s.threads[t].pc.Loaded?
    ensures Enabled(r, s, a) && !a.Collective? && a.t == t
  {
    assert ThreadOk(r, t, s.threads[t]);
    match s.threads[t].pc
    case Start => a := if Warps(r.threads) == 1 then Alone(t) else Publish(t);
    case Published => a := Arrive(t);
    case Entered => a := Read(t);
    case Folding(next, _) => a := if next == Warps(r.threads) then Finish(t) else Read(t);
  }

  // When all threads of a call are in the collective, so is the warp of each of them.
  lemma WarpWaits<T(!new)>(r: Run<T>, s: State<T>, first: nat, fenced: bool)
    requires r.Valid() && Inv(r, s, fenced) && first < r.threads
    requires forall t :: 0 <= t < r.threads && s.threads[t].iter == s.threads[first].iter ==> s.threads[t].pc.Loaded?
    ensures Enabled(r, s, Collective(WarpOf(first)))
    ensures forall t :: 0 <= t < r.threads && WarpOf(t) == WarpOf(first) ==> s.threads[t].iter == s.threads[first].iter
  {
    assert ThreadOk(r, first, s.threads[first]);
    assert forall l :: 0 <= l < Lanes(r.threads, WarpOf(first)) ==> Member(WarpOf(first), l) < r.threads;
  }

  // Every schedule of any number of calls, from any storage contents, whose consecutive calls take different
  // buffers or have a fence between them: no race, no deadlock, and every result returned so far is the result
  // of its own iteration.
  lemma EveryScheduleIsSafe<T(!new)>(r: Run<T>, s: State<T>, schedule: seq<Action>, fenced: bool)
    requires r.Valid() && Reusable(r, fenced) && Initial(r, s) && Possible(r, s, schedule)
    requires fenced ==> AllFenced(r, s, schedule)
    ensures var s' := After(r, s, schedule);
            && RaceFree(r, s', fenced)
            && (exists a :: Enabled(r, s', a) && Gathered(r, s', a) && Fenced(r, s', a) && OfLeastCall(s', a))
            && (forall t, i :: 0 <= t < r.threads && 0 <= i < |s'.threads[t].results| ==>
                                 s'.threads[t].results[i] == r.Result(i, t))
  {
    InitialInv(r, s, fenced);
    ScheduleKeepsInv(r, s, schedule, fenced);
    var s' := After(r, s, schedule);
    forall t: nat, u: nat, p: nat, w: nat
      ensures !Conflict(r, s', t, u, p, w, fenced)
    {
      InvExcludesConflict(r, s', t, u, p, w, fenced);
    }
    var a := InvCanStep(r, s', fenced);
    forall t, i | 0 <= t < r.threads && 0 <= i < |s'.threads[t].results|
      ensures s'.threads[t].results[i] == r.Result(i, t)
    {
      assert ThreadOk(r, t, s'.threads[t]);
    }
  }
}
