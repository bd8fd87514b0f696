// The generic reduction of acl_cub/aclcub.hpp:360-375: a shared buffer, one cell per thread, halved by a
// stride loop with a barrier after every step.  First what the tree computes, then every interleaving of
// the threads between the barriers.
module TreeReduction {
  import opened Arithmetic
  import opened Folds

  // ----- What the tree computes -----------------------------------------------------------------

  function Halve<T>(op: (T, T) -> T, s: seq<T>): (r: seq<T>)
    ensures |r| == |s| / 2
    ensures forall t :: 0 <= t < |r| ==> r[t] == op(s[t], s[t + |s| / 2])
  {
    var h := |s| / 2;
    Zip(op, s[..h], s[h..2 * h])
  }

  // The live part of the buffer after k steps; its length is the stride of step k (aclcub.hpp:367).
  function Level<T>(op: (T, T) -> T, inputs: seq<T>, k: nat): seq<T> {
    if k == 0 then inputs else Halve(op, Level(op, inputs, k - 1))
  }

  function Tree<T>(op: (T, T) -> T, s: seq<T>): T
    requires |s| > 0
    decreases |s|
  {
    if |s| == 1 then s[0] else Tree(op, Halve(op, s))
  }

  predicate PowerOfTwo(n: nat) {
    n == 1 || (n > 1 && n % 2 == 0 && PowerOfTwo(n / 2))
  }

  lemma {:induction false} LevelsOfTree<T>(op: (T, T) -> T, inputs: seq<T>, k: nat)
    requires |Level(op, inputs, k)| > 0
    ensures |inputs| > 0 && Tree(op, inputs) == Tree(op, Level(op, inputs, k))
  {
    if k > 0 {
      LevelsOfTree(op, inputs, k - 1);
    }
  }

  lemma {:induction false} TreeIsFold<T(!new)>(op: (T, T) -> T, s: seq<T>)
    requires Associative(op) && Commutative(op) && PowerOfTwo(|s|)
    ensures Tree(op, s) == Fold(op, s)
    decreases |s|
  {
    if |s| > 1 {
      var h := |s| / 2;
      assert s == s[..h] + s[h..2 * h];
      FoldHalves(op, s[..h], s[h..2 * h]);
      TreeIsFold(op, Halve(op, s));
    }
  }

  // Which inputs a tree over n threads drops: some thread's, whenever n is not a power of two.
  function LostThread(n: nat): (at: nat)
    requires n > 0 && !PowerOfTwo(n)
    ensures at < n
  {
    if n % 2 == 1 then n - 1 else LostThread(n / 2)
  }

  lemma {:induction false} TreeOfIdentities<T(!new)>(op: (T, T) -> T, e: T, s: seq<T>)
    requires IsIdentity(op, e) && |s| > 0 && forall t :: 0 <= t < |s| ==> s[t] == e
    ensures Tree(op, s) == e
    decreases |s|
  {
    if |s| > 1 {
      TreeOfIdentities(op, e, Halve(op, s));
    }
  }

  lemma {:induction false} TreeLosesThread<T(!new)>(op: (T, T) -> T, e: T, s: seq<T>)
    requires IsIdentity(op, e) && |s| > 0 && !PowerOfTwo(|s|)
    requires forall t :: 0 <= t < |s| && t != LostThread(|s|) ==> s[t] == e
    ensures Tree(op, s) == e
    decreases |s|
  {
    if |s| % 2 == 1 {
      TreeOfIdentities(op, e, Halve(op, s));
    } else {
      TreeLosesThread(op, e, Halve(op, s));
    }
  }

  lemma TreeWitness<T(!new)>(op: (T, T) -> T, e: T, x: T, n: nat) returns (s: seq<T>)
    requires IsIdentity(op, e) && x != e && n > 0 && !PowerOfTwo(n)
    ensures |s| == n && Tree(op, s) == e && Fold(op, s) == x
  {
    var at := LostThread(n);
    s := seq(n, t => if t == at then x else e);
    TreeLosesThread(op, e, s);
    FoldSingle(op, e, s, at);
  }

  // The stride-halving tree is the fold of all inputs exactly for power-of-two block sizes.
  lemma TreeExact<T(!new)>(op: (T, T) -> T, e: T, x: T, n: nat)
    requires Associative(op) && Commutative(op) && IsIdentity(op, e) && x != e && n > 0
    ensures PowerOfTwo(n) <==> forall s: seq<T> :: |s| == n ==> Tree(op, s) == Fold(op, s)
  {
    if PowerOfTwo(n) {
      forall s: seq<T> | |s| == n
        ensures Tree(op, s) == Fold(op, s)
      {
        TreeIsFold(op, s);
      }
    } else {
      var s := TreeWitness(op, e, x, n);
    }
  }

  // ----- Every interleaving ---------------------------------------------------------------------

  // Where a thread is within a phase: phase 0 stores the input, phase k the k-th halving, and the phase
  // whose stride is 0 reads cell 0.
  datatype Pc<T> = Begin | Loaded(value: T) | Stored | Arrived | Done(result: T)

  datatype Thread<T> = Thread(phase: nat, pc: Pc<T>) {
    function ArrivedAt(): nat {
      if pc.Arrived? then phase + 1 else phase
    }

    function StoredTo(): nat {
      if pc.Stored? || pc.Arrived? then phase + 1 else phase
    }
  }

  // A block's operation and inputs, with the live part of the buffer after each step.
  datatype Block<!T> = Block(op: (T, T) -> T, inputs: seq<T>, level: nat -> seq<T>) {
    function Stride(k: nat): nat {
      |level(k)|
    }

    ghost predicate LevelOk(k: nat) {
      level(k) == Level(op, inputs, k)
    }

    ghost predicate Valid() {
      forall k: nat :: LevelOk(k)
    }

    lemma LevelStep(k: nat)
      requires Valid() && k > 0
      ensures Stride(k) == Stride(k - 1) / 2
      ensures forall c :: 0 <= c < Stride(k) ==> level(k)[c] == op(level(k - 1)[c], level(k - 1)[c + Stride(k)])
    {
      assert LevelOk(k) && LevelOk(k - 1);
    }

    lemma LastLevel(k: nat)
      requires Valid() && k > 0 && Stride(k) == 0 && Stride(k - 1) > 0
      ensures |inputs| > 0 && level(k - 1)[0] == Tree(op, inputs)
    {
      LevelStep(k);
      assert LevelOk(k - 1);
      LevelsOfTree(op, inputs, k - 1);
    }

    lemma {:induction false} StrideBound(k: nat)
      requires Valid() && k > 0
      ensures 2 * Stride(k) <= |inputs|
    {
      LevelStep(k);
      if k == 1 {
        LevelZero();
      } else {
        StrideBound(k - 1);
      }
    }

    lemma LevelZero()
      requires Valid()
      ensures level(0) == inputs
    {
      assert LevelOk(0);
    }
  }

  datatype State<T> = State(threads: seq<Thread<T>>, buffer: seq<T>)

  datatype Action = Load(t: nat) | Store(t: nat) | Skip(t: nat) | Arrive(t: nat) | Leave(t: nat) | Return(t: nat)

  ghost predicate Shape<T>(b: Block<T>, s: State<T>) {
    b.Valid() && |b.inputs| > 0 && |s.threads| == |s.buffer| == |b.inputs|
  }

  ghost predicate Initial<T>(b: Block<T>, s: State<T>) {
    Shape(b, s) && forall t :: 0 <= t < |s.threads| ==> s.threads[t] == Thread(0, Begin)
  }

  // Thread t takes part in its current halving step: linear_tid_ < stride.
  predicate Combines<T>(b: Block<T>, t: nat, th: Thread<T>) {
    th.phase > 0 && t < b.Stride(th.phase)
  }

  ghost predicate Enabled<T(!new)>(b: Block<T>, s: State<T>, a: Action)
    requires Shape(b, s)
  {
    && a.t < |s.threads|
    && var th := s.threads[a.t];
       match a
       case Load(t) => th.pc.Begin? && Combines(b, t, th) && t + b.Stride(th.phase) < |s.buffer|
       case Store(t) => th.pc.Loaded? || (th.pc.Begin? && th.phase == 0)
       case Skip(t) => th.pc.Begin? && th.phase > 0 && b.Stride(th.phase) > 0 && !Combines(b, t, th)
       case Arrive(t) => th.pc.Stored?
       case Leave(t) => th.pc.Arrived? && forall u :: 0 <= u < |s.threads| ==> th.phase < s.threads[u].ArrivedAt()
       case Return(t) => th.pc.Begin? && th.phase > 0 && b.Stride(th.phase) == 0
  }

  function SetPc<T>(s: State<T>, t: nat, pc: Pc<T>): State<T>
    requires t < |s.threads|
  {
    s.(threads := s.threads[t := s.threads[t].(pc := pc)])
  }

  function Apply<T(!new)>(b: Block<T>, s: State<T>, a: Action): (s': State<T>)
    requires Shape(b, s) && Enabled(b, s, a)
    ensures Shape(b, s')
  {
    var th := s.threads[a.t];
    match a
    case Load(t) => SetPc(s, t, Loaded(b.op(s.buffer[t], s.buffer[t + b.Stride(th.phase)])))
    case Store(t) => SetPc(s, t, Stored).(buffer := s.buffer[t := if th.phase == 0 then b.inputs[t] else th.pc.value])
    case Skip(t) => SetPc(s, t, Stored)
    case Arrive(t) => SetPc(s, t, Arrived)
    case Leave(t) => s.(threads := s.threads[t := Thread(th.phase + 1, Begin)])
    case Return(t) => SetPc(s, t, Done(s.buffer[0]))
  }

  ghost predicate Possible<T(!new)>(b: Block<T>, s: State<T>, schedule: seq<Action>)
    requires Shape(b, s)
    decreases |schedule|
  {
    |schedule| == 0 ||
    (Enabled(b, s, schedule[0]) && Possible(b, Apply(b, s, schedule[0]), schedule[1..]))
  }

  ghost function After<T(!new)>(b: Block<T>, s: State<T>, schedule: seq<Action>): (s': State<T>)
    requires Shape(b, s) && Possible(b, s, schedule)
    ensures Shape(b, s')
    decreases |schedule|
  {
    if |schedule| == 0 then s else After(b, Apply(b, s, schedule[0]), schedule[1..])
  }

  // What cell c holds once its thread has stored up to phase k: the last level that still covers it.
  function Cell<T>(b: Block<T>, c: nat, k: nat): T
    requires c < b.Stride(0)
  {
    if c < b.Stride(k) then b.level(k)[c] else Cell(b, c, k - 1)
  }

  ghost predicate ThreadOk<T>(b: Block<T>, t: nat, th: Thread<T>)
    requires |b.inputs| > 0
  {
    && (th.phase > 0 ==> b.Stride(th.phase - 1) > 0)
    && (th.pc.Loaded? ==> Combines(b, t, th) && th.pc.value == b.level(th.phase)[t])
    && (th.pc.Stored? || th.pc.Arrived? ==> b.Stride(th.phase) > 0)
    && (th.pc.Done? ==> b.Stride(th.phase) == 0 && th.phase > 0 && th.pc.result == Tree(b.op, b.inputs))
  }

  ghost predicate Synchronised<T>(s: State<T>) {
    forall t, u :: 0 <= t < |s.threads| && 0 <= u < |s.threads| ==> s.threads[t].phase <= s.threads[u].ArrivedAt()
  }

  ghost predicate CellOk<T>(b: Block<T>, s: State<T>, c: nat)
    requires Shape(b, s) && c < |s.buffer|
  {
    b.LevelZero();
    s.threads[c].StoredTo() > 0 ==> s.buffer[c] == Cell(b, c, s.threads[c].StoredTo() - 1)
  }

  ghost predicate Inv<T>(b: Block<T>, s: State<T>) {
    && Shape(b, s)
    && (forall t :: 0 <= t < |s.threads| ==> ThreadOk(b, t, s.threads[t]))
    && Synchronised(s)
    && (forall c :: 0 <= c < |s.buffer| ==> CellOk(b, s, c))
  }

  // A thread combining in step k finds level k - 1 in both cells it reads.
  lemma CellVisible<T>(b: Block<T>, s: State<T>, t: nat, c: nat)
    requires Inv(b, s) && t < |s.threads| && s.threads[t].pc.Begin? && s.threads[t].phase > 0
    requires c < b.Stride(s.threads[t].phase - 1) && c < |s.buffer|
    requires c == t || c >= b.Stride(s.threads[t].phase) || b.Stride(s.threads[t].phase) == 0
    ensures s.buffer[c] == b.level(s.threads[t].phase - 1)[c]
  {
    var k := s.threads[t].phase;
    b.LevelZero();
    assert CellOk(b, s, c);
    assert s.threads[t].phase <= s.threads[c].ArrivedAt();
    assert s.threads[c].phase <= s.threads[t].ArrivedAt();
    assert Cell(b, c, k - 1) == b.level(k - 1)[c];
    assert c >= b.Stride(k) ==> Cell(b, c, k) == Cell(b, c, k - 1);
  }

  lemma MovedThreadOk<T(!new)>(b: Block<T>, s: State<T>, a: Action)
    requires Inv(b, s) && Enabled(b, s, a)
    ensures ThreadOk(b, a.t, Apply(b, s, a).threads[a.t])
  {
    var th := s.threads[a.t];
    assert ThreadOk(b, a.t, th);
    b.LevelZero();
    if a.Load? {
      b.LevelStep(th.phase);
      CellVisible(b, s, a.t, a.t);
      CellVisible(b, s, a.t, a.t + b.Stride(th.phase));
    } else if a.Return? {
      b.LevelStep(th.phase);
      CellVisible(b, s, a.t, 0);
      b.LastLevel(th.phase);
    }
  }

  lemma StepKeepsCells<T(!new)>(b: Block<T>, s: State<T>, a: Action, c: nat)
    requires Inv(b, s) && Enabled(b, s, a) && c < |s.buffer|
    ensures CellOk(b, Apply(b, s, a), c)
  {
    b.LevelZero();
    assert CellOk(b, s, c);
    assert ThreadOk(b, a.t, s.threads[a.t]);
    var th := s.threads[a.t];
    if a.Store? && th.phase > 0 {
      assert Cell(b, a.t, th.phase) == b.level(th.phase)[a.t];
    } else if a.Skip? {
      assert Cell(b, a.t, th.phase) == Cell(b, a.t, th.phase - 1);
    }
  }

  lemma StepKeepsInv<T(!new)>(b: Block<T>, s: State<T>, a: Action)
    requires Inv(b, s) && Enabled(b, s, a)
    ensures Inv(b, Apply(b, s, a))
  {
    var s' := Apply(b, s, a);
    forall t | 0 <= t < |s.threads|
      ensures ThreadOk(b, t, s'.threads[t])
    {
      if t == a.t {
        MovedThreadOk(b, s, a);
      } else {
        assert ThreadOk(b, t, s.threads[t]);
      }
    }
    forall c | 0 <= c < |s.buffer|
      ensures CellOk(b, s', c)
    {
      StepKeepsCells(b, s, a, c);
    }
  }

  lemma {:induction false} ScheduleKeepsInv<T(!new)>(b: Block<T>, s: State<T>, schedule: seq<Action>)
    requires Inv(b, s) && Possible(b, s, schedule)
    ensures Inv(b, After(b, s, schedule))
    decreases |schedule|
  {
    if |schedule| > 0 {
      StepKeepsInv(b, s, schedule[0]);
      ScheduleKeepsInv(b, Apply(b, s, schedule[0]), schedule[1..]);
    }
  }

  // Thread t's next action writes, or reads, cell c.
  ghost predicate WillWrite<T>(b: Block<T>, s: State<T>, t: nat, c: nat)
    requires Shape(b, s) && t < |s.threads|
  {
    c == t && (s.threads[t].pc.Loaded? || (s.threads[t].pc.Begin? && s.threads[t].phase == 0))
  }

  ghost predicate WillRead<T>(b: Block<T>, s: State<T>, t: nat, c: nat)
    requires Shape(b, s) && t < |s.threads|
  {
    && s.threads[t].pc.Begin? && s.threads[t].phase > 0
    && var stride := b.Stride(s.threads[t].phase);
       if stride == 0 then c == 0 else t < stride && (c == t || c == t + stride)
  }

  // Two threads are about to access one cell and one of them writes it.
  ghost predicate Conflict<T>(b: Block<T>, s: State<T>, t: nat, u: nat, c: nat)
    requires Shape(b, s)
  {
    && t < |s.threads| && u < |s.threads| && t != u
    && WillWrite(b, s, u, c)
    && (WillWrite(b, s, t, c) || WillRead(b, s, t, c))
  }

  // The barrier after every step keeps the threads of one step off each other's cells.
  lemma InvExcludesConflict<T>(b: Block<T>, s: State<T>, t: nat, u: nat, c: nat)
    requires Inv(b, s)
    ensures !Conflict(b, s, t, u, c)
  {
    if t < |s.threads| && u < |s.threads| {
      assert ThreadOk(b, u, s.threads[u]);
      assert s.threads[u].phase <= s.threads[t].ArrivedAt();
      assert s.threads[t].phase <= s.threads[u].ArrivedAt();
    }
  }

  // Until every thread has returned, some thread can step: the barriers never deadlock.
  lemma InvCanStep<T(!new)>(b: Block<T>, s: State<T>) returns (a: Action)
    requires Inv(b, s)
    requires exists t :: 0 <= t < |s.threads| && !s.threads[t].pc.Done?
    ensures Enabled(b, s, a)
  {
    if t :| 0 <= t < |s.threads| && !s.threads[t].pc.Arrived? && !s.threads[t].pc.Done? {
      var th := s.threads[t];
      assert ThreadOk(b, t, th);
      match th.pc
      case Begin =>
        if th.phase > 0 {
          b.StrideBound(th.phase);
        }
        a := if th.phase == 0 then Store(t)
             else if b.Stride(th.phase) == 0 then Return(t)
             else if Combines(b, t, th) then Load(t) else Skip(t);
      case Loaded(_) => a := Store(t);
      case Stored => a := Arrive(t);
    } else {
      var counts := seq(|s.threads|, u requires 0 <= u < |s.threads| => s.threads[u].ArrivedAt());
      var t := LeastIndex(counts);
      forall u | 0 <= u < |s.threads|
        ensures s.threads[t].ArrivedAt() <= s.threads[u].ArrivedAt()
      {
        assert counts[t] <= counts[u];
      }
      assert ThreadOk(b, t, s.threads[t]);
      if s.threads[t].pc.Done? {
        var u :| 0 <= u < |s.threads| && !s.threads[u].pc.Done?;
        assert ThreadOk(b, u, s.threads[u]);
        assert s.threads[t].phase <= s.threads[u].ArrivedAt();
        assert s.threads[u].phase <= s.threads[t].ArrivedAt();
        a := Leave(u);
      } else {
        a := Leave(t);
      }
    }
  }

  // The main theorem: whatever the schedule, no two threads conflict between barriers, the block never
  // gets stuck, and every thread that has returned returned the tree value; for a power-of-two block and
  // an associative and commutative operation that is the fold of all inputs.
  lemma TreeReductionInEverySchedule<T(!new)>(b: Block<T>, s: State<T>, schedule: seq<Action>)
    requires Initial(b, s) && Possible(b, s, schedule)
    ensures var s' := After(b, s, schedule);
            && (forall t: nat, u: nat, c: nat :: !Conflict(b, s', t, u, c))
            && ((exists t :: 0 <= t < |s'.threads| && !s'.threads[t].pc.Done?) ==> exists a :: Enabled(b, s', a))
            && (forall t :: 0 <= t < |s'.threads| && s'.threads[t].pc.Done? ==>
                              s'.threads[t].pc.result == Tree(b.op, b.inputs))
    ensures Associative(b.op) && Commutative(b.op) && PowerOfTwo(|b.inputs|) ==>
              Tree(b.op, b.inputs) == Fold(b.op, b.inputs)
  {
    ScheduleKeepsInv(b, s, schedule);
    var s' := After(b, s, schedule);
    forall t: nat, u: nat, c: nat
      ensures !Conflict(b, s', t, u, c)
    {
      InvExcludesConflict(b, s', t, u, c);
    }
    if exists t :: 0 <= t < |s'.threads| && !s'.threads[t].pc.Done? {
      var a := InvCanStep(b, s');
    }
    forall t | 0 <= t < |s'.threads| && s'.threads[t].pc.Done?
      ensures s'.threads[t].pc.result == Tree(b.op, b.inputs)
    {
      assert ThreadOk(b, t, s'.threads[t]);
    }
    if Associative(b.op) && Commutative(b.op) && PowerOfTwo(|b.inputs|) {
      TreeIsFold(b.op, b.inputs);
    }
  }
}
