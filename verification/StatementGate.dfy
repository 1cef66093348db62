/** The sharded statement gate: a read statement locks the one shard of its thread shared, an
    exclusive statement locks all shards in ascending order and releases them in descending order. */
module StatementGate {
  import opened Basics

  type Thread = int

  /** One shared mutex. */
  datatype Shard = Shard(readers: set<Thread>, writer: Option<Thread>)

  /** Where a thread is: `Locking(k)` has shards `0..k` and asks for shard `k`; `Unlocking(k)` still
      has shards `0..k`; `Shared` remembers the slot it was locked with. */
  datatype Local = Idle | WantShared | Shared(slot: nat) | Locking(k: nat) | Exclusive | Unlocking(k: nat)

  /** `slots` are the numbers the threads drew when they first came to the gate. */
  datatype State = State(shards: seq<Shard>, threads: map<Thread, Local>, slots: map<Thread, nat>)

  datatype Action =
    | Begin(t: Thread, exclusive: bool)
    | LockShared(t: Thread)
    | LockNext(t: Thread)
    | LockFails(t: Thread)
    | Unlock(t: Thread)

  function At(s: State, t: Thread): Local {
    if t in s.threads then s.threads[t] else Idle
  }

  function SlotOf(s: State, t: Thread): nat
    requires t in s.slots && s.shards != []
  {
    s.slots[t] % |s.shards|
  }

  /** Could the thread take this step now? A mutex grants a shared lock when nobody writes and an
      exclusive one when nobody holds it. `Begin` is the caller's choice; an upgrade is `Unlock`
      followed by `Begin` with `exclusive`. */
  predicate Enabled(s: State, a: Action) {
    && s.shards != [] && a.t in s.slots
    && match a
       case Begin(t, x) => At(s, t) == Idle
       case LockShared(t) => At(s, t) == WantShared && s.shards[SlotOf(s, t)].writer == None
       case LockNext(t) => At(s, t).Locking? &&
         (At(s, t).k < |s.shards| ==> s.shards[At(s, t).k].writer == None && s.shards[At(s, t).k].readers == {})
       case LockFails(t) => At(s, t).Locking? && At(s, t).k < |s.shards|
       case Unlock(t) => At(s, t).Shared? || At(s, t).Exclusive? || At(s, t).Unlocking?
  }

  function Move(s: State, t: Thread, l: Local): State {
    s.(threads := s.threads[t := l])
  }

  function SetShard(s: State, i: nat, shard: Shard): State
    requires i < |s.shards|
  {
    s.(shards := s.shards[i := shard])
  }

  /** Effects. Unlocking writes what the mutex becomes without looking at who holds it. */
  function Next(s: State, a: Action): State
    requires Enabled(s, a)
  {
    var t := a.t;
    match a
    case Begin(_, x) => Move(s, t, if x then Locking(0) else WantShared)
    case LockShared(_) =>
      var i := SlotOf(s, t);
      SetShard(Move(s, t, Shared(i)), i, s.shards[i].(readers := s.shards[i].readers + {t}))
    case LockNext(_) =>
      var k := At(s, t).k;
      if k < |s.shards| then SetShard(Move(s, t, Locking(k + 1)), k, s.shards[k].(writer := Some(t)))
          else Move(s, t, Exclusive)
    case LockFails(_) => Move(s, t, Unlocking(At(s, t).k))
    case Unlock(_) =>
      match At(s, t)
      case Shared(slot) =>
        var i := slot % |s.shards|;
        SetShard(Move(s, t, Idle), i, s.shards[i].(readers := s.shards[i].readers - {t}))
      case Unlocking(k) =>
        if 0 < k <= |s.shards| then SetShard(Move(s, t, Unlocking(k - 1)), k - 1, s.shards[k - 1].(writer := None))
            else Move(s, t, Idle)
      case _ => Move(s, t, Unlocking(|s.shards|))
  }

  // ---------------------------------------------------------------- invariant

  /** The thread has shard `i` exclusively. */
  predicate HasExclusive(l: Local, i: int) {
    match l
    case Locking(k) => i < k
    case Unlocking(k) => i < k
    case Exclusive => true
    case _ => false
  }

  predicate HasShared(l: Local, i: int, n: nat)
    requires n > 0
  {
    l.Shared? && l.slot % n == i
  }

  /** The mutex is held by exactly the threads that think they hold it, and by readers or a writer. */
  ghost predicate ShardOk(s: State, i: int)
    requires 0 <= i < |s.shards|
  {
    && (forall t {:trigger At(s, t)} :: s.shards[i].writer == Some(t) <==> HasExclusive(At(s, t), i))
    && (forall t {:trigger At(s, t)} :: t in s.shards[i].readers <==> HasShared(At(s, t), i, |s.shards|))
    && (s.shards[i].writer.Some? ==> s.shards[i].readers == {})
  }

  ghost predicate LocalOk(s: State, t: Thread) {
    && (At(s, t).Locking? || At(s, t).Unlocking? ==> At(s, t).k <= |s.shards|)
    && (At(s, t) != Idle ==> t in s.slots)
  }

  ghost predicate Inv(s: State) {
    && s.shards != []
    && (forall i {:trigger ShardOk(s, i)} :: 0 <= i < |s.shards| ==> ShardOk(s, i))
    && (forall t {:trigger LocalOk(s, t)} :: LocalOk(s, t))
  }

  ghost predicate Init(s: State) {
    && s.shards != [] && s.threads == map[]
    && forall i :: 0 <= i < |s.shards| ==> s.shards[i] == Shard({}, None)
  }

  lemma InitInv(s: State)
    requires Init(s)
    ensures Inv(s)
  {
  }

  lemma StepKeeps(s: State, a: Action)
    requires Inv(s) && Enabled(s, a)
    ensures Inv(Next(s, a))
  {
    var s' := Next(s, a);
    assert LocalOk(s, a.t);
    forall t ensures At(s', t) == if t == a.t then At(s', a.t) else At(s, t) { }
    forall i | 0 <= i < |s'.shards| ensures ShardOk(s', i) {
      StepShard(s, a, i);
    }
    forall t ensures LocalOk(s', t) {
      assert LocalOk(s, t);
    }
  }

  lemma StepShard(s: State, a: Action, i: int)
    requires Inv(s) && Enabled(s, a) && 0 <= i < |s.shards|
    ensures |Next(s, a).shards| == |s.shards| && ShardOk(Next(s, a), i)
  {
    var s', n := Next(s, a), |s.shards|;
    assert ShardOk(s, i) && LocalOk(s, a.t);
    if a.LockShared? {
      assert SlotOf(s, a.t) % n == SlotOf(s, a.t) by { ModMod(s.slots[a.t], n); }
    }
    forall t ensures At(s', t) == if t == a.t then At(s', a.t) else At(s, t) { }
    forall t ensures s'.shards[i].writer == Some(t) <==> HasExclusive(At(s', t), i) {
      assert s.shards[i].writer == Some(t) <==> HasExclusive(At(s, t), i);
      assert s.shards[i].writer == Some(a.t) <==> HasExclusive(At(s, a.t), i);
    }
    forall t ensures t in s'.shards[i].readers <==> HasShared(At(s', t), i, n) {
      assert t in s.shards[i].readers <==> HasShared(At(s, t), i, n);
    }
  }

  lemma ModMod(x: nat, n: nat)
    requires n > 0
    ensures (x % n) % n == x % n
  {
  }

  // ---------------------------------------------------------------- runs

  ghost predicate Follows(states: seq<State>, i: int)
    requires 0 <= i < |states| - 1
  {
    exists a :: Enabled(states[i], a) && states[i + 1] == Next(states[i], a)
  }

  ghost predicate Run(states: seq<State>) {
    && |states| > 0 && Init(states[0])
    && forall i {:trigger Follows(states, i)} :: 0 <= i < |states| - 1 ==> Follows(states, i)
  }

  lemma {:induction false} RunInv(states: seq<State>, i: nat)
    requires Run(states) && i < |states|
    ensures Inv(states[i])
  {
    if i == 0 {
      InitInv(states[0]);
    } else {
      RunInv(states, i - 1);
      assert Follows(states, i - 1);
      var a :| Enabled(states[i - 1], a) && states[i] == Next(states[i - 1], a);
      StepKeeps(states[i - 1], a);
    }
  }

  /** An exclusive statement is alone: nobody else reads, nobody else has even one shard. */
  lemma Exclusion(states: seq<State>, i: nat, t: Thread, u: Thread)
    requires Run(states) && i < |states| && t != u && At(states[i], t) == Exclusive
    ensures !At(states[i], u).Shared? && At(states[i], u) != Exclusive
    ensures At(states[i], u).Locking? || At(states[i], u).Unlocking? ==> At(states[i], u).k == 0
  {
    var s := states[i];
    RunInv(states, i);
    var j := if At(s, u).Shared? then At(s, u).slot % |s.shards| else 0;
    assert ShardOk(s, 0) && ShardOk(s, j) && LocalOk(s, u);
    assert s.shards[j].writer == Some(t);
  }

  /** Unlocking takes away exactly what the thread had: afterwards no shard names it, and what the
      other threads hold is untouched. */
  lemma UnlockReleasesOwn(states: seq<State>, i: nat, t: Thread)
    requires Run(states) && i < |states| && Enabled(states[i], Unlock(t)) && At(Next(states[i], Unlock(t)), t) == Idle
    ensures var s' := Next(states[i], Unlock(t));
            forall j :: 0 <= j < |s'.shards| ==>
              && s'.shards[j].writer != Some(t) && t !in s'.shards[j].readers
              && (forall u :: u != t ==> (s'.shards[j].writer == Some(u) <==> states[i].shards[j].writer == Some(u)))
              && s'.shards[j].readers == states[i].shards[j].readers - {t}
  {
    var s, s' := states[i], Next(states[i], Unlock(t));
    RunInv(states, i);
    StepKeeps(s, Unlock(t));
    forall j | 0 <= j < |s'.shards|
      ensures && s'.shards[j].writer != Some(t) && t !in s'.shards[j].readers
              && (forall u :: u != t ==> (s'.shards[j].writer == Some(u) <==> s.shards[j].writer == Some(u)))
              && s'.shards[j].readers == s.shards[j].readers - {t}
    {
      assert ShardOk(s', j) && ShardOk(s, j) && LocalOk(s, t);
      assert At(s', t) == Idle;
      assert HasShared(At(s, t), j, |s.shards|) <==> t in s.shards[j].readers;
    }
  }

  /** Shards the thread still has to release. */
  function Left(s: State, t: Thread): nat {
    match At(s, t)
    case Exclusive => |s.shards|
    case Unlocking(k) => k
    case _ => 0
  }

  /** From `a` to `b` the thread does nothing but release its shards. */
  ghost predicate Releasing(states: seq<State>, a: nat, b: nat, t: Thread) {
    && Run(states) && a <= b < |states| && At(states[a], t) == Exclusive
    && forall i {:trigger states[i]} :: a <= i < b ==> At(states[i], t).Exclusive? || At(states[i], t).Unlocking?
  }

  /** Step `i` takes shard `j` from the thread and leaves it free. */
  ghost predicate Frees(states: seq<State>, i: nat, t: Thread, j: nat) {
    && i + 1 < |states| && j < |states[i].shards| && j < |states[i + 1].shards|
    && states[i].shards[j].writer == Some(t) && states[i + 1].shards[j] == Shard({}, None)
    && Left(states[i], t) == j + 1 && Left(states[i + 1], t) == j
  }

  /** One step of the run: what is left stays or, when the thread itself steps, the last of it goes. */
  lemma ReleaseStep(states: seq<State>, a: nat, b: nat, t: Thread, i: nat)
    requires Releasing(states, a, b, t) && a <= i < b
    ensures |states[i + 1].shards| == |states[i].shards|
    ensures Left(states[i + 1], t) <= Left(states[i], t) <= |states[i].shards|
    ensures Left(states[i + 1], t) < Left(states[i], t) ==> Frees(states, i, t, Left(states[i], t) - 1)
  {
    RunInv(states, i);
    assert Follows(states, i);
    var act :| Enabled(states[i], act) && states[i + 1] == Next(states[i], act);
    ReleaseOne(states[i], act, t);
  }

  lemma ReleaseOne(s: State, act: Action, t: Thread)
    requires Inv(s) && Enabled(s, act) && (At(s, t).Exclusive? || At(s, t).Unlocking?)
    ensures var s', k := Next(s, act), Left(s, t);
            && |s'.shards| == |s.shards| && Left(s', t) <= k <= |s.shards|
            && (Left(s', t) < k ==>
                s.shards[k - 1].writer == Some(t) && s'.shards[k - 1] == Shard({}, None) && Left(s', t) == k - 1)
  {
    var s', k := Next(s, act), Left(s, t);
    assert LocalOk(s, t);
    if act.t != t {
      assert At(s', t) == At(s, t);
    } else if k > 0 {
      assert ShardOk(s, k - 1) && s.shards[k - 1].writer == Some(t);
    }
  }

  lemma {:induction false} LeftFalls(states: seq<State>, a: nat, b: nat, t: Thread, i: nat, j: nat)
    requires Releasing(states, a, b, t) && a <= i <= j <= b
    ensures Left(states[j], t) <= Left(states[i], t) && |states[j].shards| == |states[i].shards|
    decreases j - i
  {
    if i < j {
      LeftFalls(states, a, b, t, i, j - 1);
      ReleaseStep(states, a, b, t, j - 1);
    }
  }

  /** The step that frees shard `j`. */
  lemma {:induction false} FreedAt(states: seq<State>, a: nat, b: nat, t: Thread, j: nat, end: nat) returns (i: nat)
    requires Releasing(states, a, b, t) && a <= end <= b && j < |states[a].shards| && Left(states[end], t) <= j
    ensures a <= i < end && Frees(states, i, t, j)
    decreases end
  {
    LeftFalls(states, a, b, t, a, end - 1);
    ReleaseStep(states, a, b, t, end - 1);
    if Left(states[end - 1], t) <= j {
      i := FreedAt(states, a, b, t, j, end - 1);
    } else {
      i := end - 1;
    }
  }

  /** A whole exclusive unlock, whatever other threads do meanwhile: every shard is freed by a step of
      its own, the last shard first, and at the end the thread has none. */
  lemma {:induction false} UnlockFreesAll(states: seq<State>, a: nat, b: nat, t: Thread) returns (at: seq<nat>)
    requires Releasing(states, a, b, t) && At(states[b], t) == Idle
    ensures |at| == |states[a].shards| && forall j :: 0 <= j < |at| ==> a <= at[j] < b && Frees(states, at[j], t, j)
    ensures forall j, l :: 0 <= j < l < |at| ==> at[l] < at[j]
    ensures forall j :: 0 <= j < |states[b].shards| ==>
              states[b].shards[j].writer != Some(t) && t !in states[b].shards[j].readers
  {
    at := [];
    while |at| < |states[a].shards|
      invariant |at| <= |states[a].shards| && forall j :: 0 <= j < |at| ==> a <= at[j] < b && Frees(states, at[j], t, j)
    {
      var i := FreedAt(states, a, b, t, |at|, b);
      at := at + [i];
    }
    forall j, l | 0 <= j < l < |at| ensures at[l] < at[j] {
      if at[j] <= at[l] { LeftFalls(states, a, b, t, at[j], at[l]); }
    }
    RunInv(states, b);
    forall j | 0 <= j < |states[b].shards|
      ensures states[b].shards[j].writer != Some(t) && t !in states[b].shards[j].readers
    {
      assert ShardOk(states[b], j);
    }
  }

  // ---------------------------------------------------------------- progress

  predicate Holds(l: Local) {
    l.Shared? || l.Exclusive? || ((l.Locking? || l.Unlocking?) && l.k > 0)
  }

  /** The step a thread inside the gate takes next; letting a statement finish counts as its step. */
  function NextStep(s: State, t: Thread): Action {
    match At(s, t)
    case WantShared => LockShared(t)
    case Locking(_) => LockNext(t)
    case Idle => Begin(t, false)
    case _ => Unlock(t)
  }

  /** Follows whoever holds the shard a locker waits for. A waiting holder has got further than the
      one it blocks, so the chain ends at a thread that can step. */
  lemma {:induction false} BlockerCanStep(s: State, t: Thread) returns (u: Thread)
    requires Inv(s) && At(s, t).Locking?
    ensures Enabled(s, NextStep(s, u)) && (u == t || Holds(At(s, u)))
    decreases |s.shards| - At(s, t).k
  {
    assert LocalOk(s, t);
    var k := At(s, t).k;
    if k == |s.shards| || (s.shards[k].writer == None && s.shards[k].readers == {}) {
      u := t;
    } else {
      assert ShardOk(s, k);
      if s.shards[k].writer.Some? {
        u := s.shards[k].writer.value;
        assert HasExclusive(At(s, u), k) && LocalOk(s, u);
        if At(s, u).Locking? {
          u := BlockerCanStep(s, u);
        }
      } else {
        u := Pick(s.shards[k].readers);
        assert HasShared(At(s, u), k, |s.shards|) && LocalOk(s, u);
      }
    }
  }

  /** No deadlock: while anybody holds a lock some holder can take its next step, and while anybody
      is inside the gate somebody can. */
  lemma SomeHolderCanStep(states: seq<State>, i: nat, t: Thread) returns (u: Thread)
    requires Run(states) && i < |states| && At(states[i], t) != Idle
    ensures Enabled(states[i], NextStep(states[i], u)) && At(states[i], u) != Idle
    ensures Holds(At(states[i], t)) ==> Holds(At(states[i], u))
  {
    var s := states[i];
    RunInv(states, i);
    assert LocalOk(s, t);
    u := t;
    if At(s, t).Locking? {
      u := BlockerCanStep(s, t);
    } else if At(s, t) == WantShared && s.shards[SlotOf(s, t)].writer.Some? {
      assert ShardOk(s, SlotOf(s, t));
      u := s.shards[SlotOf(s, t)].writer.value;
      assert HasExclusive(At(s, u), SlotOf(s, t)) && LocalOk(s, u);
      if At(s, u).Locking? {
        u := BlockerCanStep(s, u);
      }
    }
  }
}
