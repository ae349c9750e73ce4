/** What holds in every state of the message pipe, whatever the interleaving. */
module PipeSafe {
  import opened Optional
  import opened PipeModel

  // ----- what a thread's position says -----

  /** Inside the critical section. */
  predicate Locked<M>(pc: Pc<M>) {
    pc.PostTest? || pc.PostSignal? || pc.PostAppend? || pc.PostUnlock?
    || pc.TakeTest? || pc.TakeUnlink? || pc.TakeTestEmpty? || pc.TakeClear? || pc.TakeUnlock?
  }

  /** The thread still has to access the pipe's memory. */
  predicate Using<M>(pc: Pc<M>) { Locked(pc) || pc.PostLock? || pc.TakeLock? }

  /** The thread took the last reference and has not finished. */
  predicate Ending<M>(pc: Pc<M>) {
    pc == FreeTest(0) || pc.FreeMessages? || pc.FreeMutex? || pc.FreeWaker? || pc.FreeStruct?
  }

  /** The message that was taken from the queue and not freed yet. */
  function InHand<M>(pc: Pc<M>): multiset<M> {
    match pc
    case TakeTestEmpty(m) => multiset{m}
    case TakeClear(m) => multiset{m}
    case TakeUnlock(got) => if got.None? then multiset{} else multiset{got.value}
    case TakeRead(m) => multiset{m}
    case _ => multiset{}
  }

  function AllRefs<M>(threads: seq<Thread<M>>): nat {
    if threads == [] then 0 else threads[0].refs + AllRefs(threads[1..])
  }

  function AllInHand<M>(threads: seq<Thread<M>>): multiset<M> {
    if threads == [] then multiset{} else InHand(threads[0].pc) + AllInHand(threads[1..])
  }

  lemma {:induction false} RefsChanged<M>(threads: seq<Thread<M>>, t: nat, th: Thread<M>)
    requires t < |threads|
    ensures AllRefs(threads[t := th]) == AllRefs(threads) - threads[t].refs + th.refs
  {
    var now := threads[t := th];
    if t == 0 {
      assert now[1..] == threads[1..];
    } else {
      assert now[1..] == threads[1..][t - 1 := th];
      RefsChanged(threads[1..], t - 1, th);
    }
  }

  lemma {:induction false} InHandChanged<M>(threads: seq<Thread<M>>, t: nat, th: Thread<M>)
    requires t < |threads|
    ensures AllInHand(threads[t := th]) + InHand(threads[t].pc) == AllInHand(threads) + InHand(th.pc)
  {
    hide InHand;
    var now := threads[t := th];
    if t == 0 {
      assert now[1..] == threads[1..];
      SumExchanged(InHand(th.pc), AllInHand(threads[1..]), InHand(threads[0].pc));
    } else {
      assert now[1..] == threads[1..][t - 1 := th];
      InHandChanged(threads[1..], t - 1, th);
      SumWider(InHand(threads[0].pc), AllInHand(now[1..]), AllInHand(threads[1..]), InHand(threads[t].pc), InHand(th.pc));
    }
  }

  lemma SumExchanged<M>(x: multiset<M>, y: multiset<M>, z: multiset<M>)
    ensures (x + y) + z == (z + y) + x
  {
  }

  lemma SumWider<M>(x: multiset<M>, y: multiset<M>, z: multiset<M>, p: multiset<M>, q: multiset<M>)
    requires y + p == z + q
    ensures (x + y) + p == (x + z) + q
  {
    assert (x + y) + p == x + (y + p);
    assert (x + z) + q == x + (z + q);
  }

  lemma {:induction false} RefsAtLeast<M>(threads: seq<Thread<M>>, t: nat)
    requires t < |threads|
    ensures threads[t].refs <= AllRefs(threads)
  {
    if t > 0 {
      RefsAtLeast(threads[1..], t - 1);
    }
  }

  lemma {:induction false} NoRefs<M>(threads: seq<Thread<M>>)
    requires forall t :: 0 <= t < |threads| ==> threads[t].refs == 0
    ensures AllRefs(threads) == 0
  {
    if threads != [] {
      NoRefs(threads[1..]);
    }
  }

  lemma {:induction false} NoneInHand<M>(threads: seq<Thread<M>>)
    requires forall t :: 0 <= t < |threads| ==> threads[t].pc == Idle
    ensures AllInHand(threads) == multiset{}
  {
    if threads != [] {
      NoneInHand(threads[1..]);
    }
  }

  // ----- the invariant -----

  /** The counter is the number of references, and whoever uses the pipe holds one. */
  ghost predicate Counted<M>(s: Pipe<M>) {
    && s.refCount == AllRefs(s.threads)
    && forall t :: 0 <= t < |s.threads| && Using(s.threads[t].pc) ==> s.threads[t].refs > 0
  }

  /** The mutex belongs to the one thread that is in its critical section. */
  ghost predicate Exclusive<M>(s: Pipe<M>) {
    && (s.mutex.Some? ==> s.mutex.value < |s.threads|)
    && forall t :: 0 <= t < |s.threads| ==> (Locked(s.threads[t].pc) <==> s.mutex == Some(t))
  }

  /** Exactly the thread that dropped the last reference tears the pipe down, once. */
  ghost predicate Closing<M>(s: Pipe<M>) {
    && (s.closer.None? <==> s.refCount > 0)
    && (s.closer.None? ==> s.live)
    && (s.closer.Some? ==> s.closer.value < |s.threads|)
    && (forall t :: 0 <= t < |s.threads| ==> (Ending(s.threads[t].pc) <==> s.live && s.closer == Some(t)))
    && (forall t :: 0 <= t < |s.threads| && s.threads[t].pc.FreeTest? ==> s.threads[t].pc.left >= 0)
    && s.frees == (if s.live then 0 else 1)
  }

  /** What is still in place while the pipe is torn down. */
  ghost predicate Stage<M>(s: Pipe<M>) {
    && (s.closer.None? ==> s.mutexLive && s.wakerOpen && s.dropped == [])
    && (!s.live ==> !s.mutexLive && !s.wakerOpen && s.queue == [])
    && (s.live && s.closer.Some? && s.closer.value < |s.threads| ==>
          var pc := s.threads[s.closer.value].pc;
          && (s.mutexLive <==> pc.FreeTest? || pc.FreeMessages? || pc.FreeMutex?)
          && (s.wakerOpen <==> !pc.FreeStruct?)
          && (pc.FreeMutex? || pc.FreeWaker? || pc.FreeStruct? ==> s.queue == []))
  }

  /** One wake-up byte when there are messages, none when there are not. */
  predicate Balanced<M>(queue: seq<M>, wake: nat) { wake == if queue == [] then 0 else 1 }

  /** What the holder of the mutex finds. */
  predicate Expected<M>(pc: Pc<M>, queue: seq<M>, wake: nat) {
    match pc
    case PostSignal(_) => queue == [] && wake == 0
    case PostAppend(_) => wake == 1
    case TakeUnlink => queue != [] && wake == 1
    case TakeTestEmpty(_) => wake == 1
    case TakeClear(_) => queue == [] && wake == 1
    case _ => Balanced(queue, wake)
  }

  ghost predicate Signalled<M>(s: Pipe<M>) {
    && (s.refCount > 0 && s.mutex.None? ==> Balanced(s.queue, s.wake))
    && (s.mutex.Some? && s.mutex.value < |s.threads| ==> Expected(s.threads[s.mutex.value].pc, s.queue, s.wake))
  }

  /** Messages leave the queue in the order in which they entered it. */
  ghost predicate InOrder<M>(s: Pipe<M>) { s.posted == s.taken + s.dropped + s.queue }

  /** Every message that left the queue was freed once or is in one thread's hands. */
  ghost predicate Accounted<M>(s: Pipe<M>) {
    multiset(s.taken) + multiset(s.dropped) == multiset(s.released) + AllInHand(s.threads)
  }

  ghost predicate Inv<M>(s: Pipe<M>) {
    Counted(s) && Exclusive(s) && Closing(s) && Stage(s) && Signalled(s) && InOrder(s) && Accounted(s)
  }

  lemma FreshInv<M>(s: Pipe<M>, maker: nat)
    requires Fresh(s, maker)
    ensures Inv(s)
  {
    var none := seq(|s.threads|, i => Thread(Idle, 0));
    NoRefs(none);
    RefsChanged(none, maker, Thread(Idle, 1));
    assert none[maker := Thread(Idle, 1)] == s.threads;
    NoneInHand(s.threads);
  }

  // ----- every step keeps it -----

  /** Only thread `t` moves. */
  ghost predicate Moved<M>(s: Pipe<M>, n: Pipe<M>, t: nat) {
    t < |s.threads| == |n.threads| && n.threads == s.threads[t := n.threads[t]]
  }

  /** Thread `t` takes the mutex, gives it back, or stays in or out of its critical section. */
  ghost predicate MutexMoved<M>(s: Pipe<M>, n: Pipe<M>, t: nat) {
    && t < |s.threads| == |n.threads|
    && var was, now := Locked(s.threads[t].pc), Locked(n.threads[t].pc);
       if was == now then n.mutex == s.mutex
       else if now then s.mutex == None && n.mutex == Some(t)
       else n.mutex == None
  }

  /** A working thread keeps its references and starts no other use of the pipe. */
  ghost predicate Worked<M>(s: Pipe<M>, n: Pipe<M>, t: nat) {
    && Moved(s, n, t) && MutexMoved(s, n, t)
    && n.threads[t].refs == s.threads[t].refs && n.refCount == s.refCount && n.closer == s.closer
    && (Using(n.threads[t].pc) ==> Using(s.threads[t].pc))
  }

  predicate Posting<M>(pc: Pc<M>) {
    pc.PostLock? || pc.PostTest? || pc.PostSignal? || pc.PostAppend? || pc.PostUnlock?
  }

  predicate Freeing<M>(pc: Pc<M>) {
    pc.FreeTest? || pc.FreeMessages? || pc.FreeMutex? || pc.FreeWaker? || pc.FreeStruct?
  }

  predicate Leaving<M>(pc: Pc<M>) { pc.TakeTestEmpty? || pc.TakeClear? || pc.TakeUnlock? || pc.TakeRead? }

  predicate Taking<M>(pc: Pc<M>) { Entering(pc) || Leaving(pc) }

  lemma PostWorked<M>(s: Pipe<M>, t: nat)
    requires t < |s.threads| && Posting(s.threads[t].pc)
    ensures Worked(s, PostStep(s, t), t)
  {
  }

  lemma EnterWorked<M>(s: Pipe<M>, t: nat)
    requires t < |s.threads| && Entering(s.threads[t].pc)
    ensures Worked(s, TakeEnter(s, t), t)
  {
  }

  lemma LeaveWorked<M>(s: Pipe<M>, t: nat)
    requires t < |s.threads| && Leaving(s.threads[t].pc)
    ensures Worked(s, TakeLeave(s, t), t)
  {
  }

  lemma TakeWorked<M>(s: Pipe<M>, t: nat)
    requires t < |s.threads| && Taking(s.threads[t].pc)
    ensures Worked(s, TakeStep(s, t), t)
  {
    hide TakeEnter, TakeLeave, Worked;
    if Entering(s.threads[t].pc) {
      EnterWorked(s, t);
    } else {
      LeaveWorked(s, t);
    }
  }

  lemma FreeWorked<M>(s: Pipe<M>, t: nat)
    requires t < |s.threads| && Freeing(s.threads[t].pc)
    ensures Worked(s, FreeStep(s, t), t)
  {
  }

  lemma StepWorked<M>(s: Pipe<M>, t: nat, c: Choice<M>)
    requires t < |s.threads| && !s.threads[t].pc.Idle?
    ensures Worked(s, Step(s, t, c), t)
  {
    hide Worked, PostStep, TakeStep, FreeStep;
    if Posting(s.threads[t].pc) {
      PostWorked(s, t);
    } else if Freeing(s.threads[t].pc) {
      FreeWorked(s, t);
    } else {
      TakeWorked(s, t);
    }
  }

  /** What an idle thread's step leaves alone. */
  ghost predicate Began<M>(s: Pipe<M>, n: Pipe<M>, t: nat) {
    && t < |s.threads| == |n.threads|
    && (forall u :: 0 <= u < |s.threads| && u != t ==> n.threads[u].pc == s.threads[u].pc)
    && s.threads[t].pc == Idle && !Locked(n.threads[t].pc) && InHand(n.threads[t].pc) == multiset{}
    && n == s.(threads := n.threads, refCount := n.refCount, closer := n.closer)
  }

  lemma IdleBegan<M>(s: Pipe<M>, t: nat, c: Choice<M>)
    requires t < |s.threads| && s.threads[t].pc.Idle?
    ensures Began(s, IdleStep(s, t, c), t)
  {
  }

  // the reference count

  lemma WorkedCounted<M>(s: Pipe<M>, n: Pipe<M>, t: nat)
    requires Counted(s) && Worked(s, n, t)
    ensures Counted(n)
  {
    RefsChanged(s.threads, t, n.threads[t]);
  }

  lemma GiveCounted<M>(s: Pipe<M>, t: nat, u: nat)
    requires t < |s.threads| && u < |s.threads| && t != u && Counted(s) && s.threads[t].pc.Idle? && s.threads[t].refs > 0
    ensures Counted(IdleStep(s, t, Give(u)))
  {
    var a, b := s.threads[t].(refs := s.threads[t].refs - 1), s.threads[u].(refs := s.threads[u].refs + 1);
    RefsChanged(s.threads, t, a);
    RefsChanged(s.threads[t := a], u, b);
  }

  lemma IdleCounted<M>(s: Pipe<M>, t: nat, c: Choice<M>)
    requires t < |s.threads| && Counted(s) && s.threads[t].pc.Idle?
    ensures Counted(IdleStep(s, t, c))
  {
    var n := IdleStep(s, t, c);
    if s.threads[t].refs > 0 && c.Give? && c.to < |s.threads| && c.to != t {
      GiveCounted(s, t, c.to);
    } else {
      assert n.threads == s.threads[t := n.threads[t]];
      RefsChanged(s.threads, t, n.threads[t]);
    }
  }

  lemma StepCounted<M>(s: Pipe<M>, t: nat, c: Choice<M>)
    requires t < |s.threads| && Counted(s)
    ensures Counted(Step(s, t, c))
  {
    hide Counted, Worked, IdleStep, PostStep, TakeStep, FreeStep;
    if s.threads[t].pc.Idle? {
      IdleCounted(s, t, c);
    } else {
      StepWorked(s, t, c);
      WorkedCounted(s, Step(s, t, c), t);
    }
  }

  // the mutex

  lemma WorkedExclusive<M>(s: Pipe<M>, n: Pipe<M>, t: nat)
    requires Exclusive(s) && Worked(s, n, t)
    ensures Exclusive(n)
  {
    hide Locked, Using;
  }

  lemma BeganExclusive<M>(s: Pipe<M>, n: Pipe<M>, t: nat)
    requires Exclusive(s) && Began(s, n, t)
    ensures Exclusive(n)
  {
  }

  lemma StepExclusive<M>(s: Pipe<M>, t: nat, c: Choice<M>)
    requires t < |s.threads| && Exclusive(s)
    ensures Exclusive(Step(s, t, c))
  {
    hide Exclusive, Worked, Began, IdleStep, PostStep, TakeStep, FreeStep;
    if s.threads[t].pc.Idle? {
      IdleBegan(s, t, c);
      BeganExclusive(s, Step(s, t, c), t);
    } else {
      StepWorked(s, t, c);
      WorkedExclusive(s, Step(s, t, c), t);
    }
  }

  // the order of the messages

  lemma TakenInOrder<M>(s: Pipe<M>, t: nat)
    requires t < |s.threads| && InOrder(s) && s.threads[t].pc.TakeUnlink? && s.dropped == []
    ensures InOrder(TakeStep(s, t))
  {
    if s.queue != [] {
      assert s.taken + [] + s.queue == (s.taken + [s.queue[0]]) + [] + s.queue[1..];
    }
  }

  lemma DroppedInOrder<M>(s: Pipe<M>, t: nat)
    requires t < |s.threads| && InOrder(s) && s.threads[t].pc.FreeMessages?
    ensures InOrder(FreeStep(s, t))
  {
    if s.queue != [] {
      assert s.taken + s.dropped + s.queue == s.taken + (s.dropped + [s.queue[0]]) + s.queue[1..];
    }
  }

  lemma PostedInOrder<M>(s: Pipe<M>, t: nat)
    requires t < |s.threads| && InOrder(s) && s.threads[t].pc.PostAppend?
    ensures InOrder(PostStep(s, t))
  {
    var m := s.threads[t].pc.m;
    assert (s.taken + s.dropped + s.queue) + [m] == s.taken + s.dropped + (s.queue + [m]);
  }

  ghost predicate SameMessages<M>(s: Pipe<M>, n: Pipe<M>) {
    n.posted == s.posted && n.taken == s.taken && n.dropped == s.dropped && n.queue == s.queue
  }

  lemma PostKeepsMessages<M>(s: Pipe<M>, t: nat)
    requires t < |s.threads| && !s.threads[t].pc.PostAppend?
    ensures SameMessages(s, PostStep(s, t))
  {
  }

  lemma TakeKeepsMessages<M>(s: Pipe<M>, t: nat)
    requires t < |s.threads| && !s.threads[t].pc.TakeUnlink?
    ensures SameMessages(s, TakeStep(s, t))
  {
  }

  lemma FreeKeepsMessages<M>(s: Pipe<M>, t: nat)
    requires t < |s.threads| && !s.threads[t].pc.FreeMessages?
    ensures SameMessages(s, FreeStep(s, t))
  {
  }

  lemma OthersKeepMessages<M>(s: Pipe<M>, t: nat, c: Choice<M>)
    requires t < |s.threads|
    requires !s.threads[t].pc.TakeUnlink? && !s.threads[t].pc.FreeMessages? && !s.threads[t].pc.PostAppend?
    ensures SameMessages(s, Step(s, t, c))
  {
    hide IdleStep, PostStep, TakeStep, FreeStep;
    PostKeepsMessages(s, t);
    TakeKeepsMessages(s, t);
    FreeKeepsMessages(s, t);
    if s.threads[t].pc.Idle? {
      IdleBegan(s, t, c);
    }
  }

  lemma StepInOrder<M>(s: Pipe<M>, t: nat, c: Choice<M>)
    requires t < |s.threads| && InOrder(s) && (s.threads[t].pc.TakeUnlink? ==> s.dropped == [])
    ensures InOrder(Step(s, t, c))
  {
    hide InOrder, IdleStep, PostStep, TakeStep, FreeStep;
    if s.threads[t].pc.TakeUnlink? {
      TakenInOrder(s, t);
    } else if s.threads[t].pc.FreeMessages? {
      DroppedInOrder(s, t);
    } else if s.threads[t].pc.PostAppend? {
      PostedInOrder(s, t);
    } else {
      OthersKeepMessages(s, t, c);
      SameInOrder(s, Step(s, t, c));
    }
  }

  lemma SameInOrder<M>(s: Pipe<M>, n: Pipe<M>)
    requires InOrder(s) && SameMessages(s, n)
    ensures InOrder(n)
  {
  }

  // every message is accounted for

  /** A step that neither takes nor frees a message. */
  ghost predicate Quiet<M>(s: Pipe<M>, n: Pipe<M>, t: nat) {
    && Moved(s, n, t) && InHand(n.threads[t].pc) == InHand(s.threads[t].pc)
    && n.taken == s.taken && n.dropped == s.dropped && n.released == s.released
  }

  lemma QuietAccounted<M>(s: Pipe<M>, n: Pipe<M>, t: nat)
    requires Accounted(s) && Quiet(s, n, t)
    ensures Accounted(n)
  {
    hide InHand;
    InHandChanged(s.threads, t, n.threads[t]);
    Cancel(AllInHand(n.threads), AllInHand(s.threads), InHand(s.threads[t].pc));
  }

  lemma Cancel<M>(a: multiset<M>, b: multiset<M>, x: multiset<M>)
    requires a + x == b + x
    ensures a == b
  {
    forall m
      ensures a[m] == b[m]
    {
      assert (a + x)[m] == (b + x)[m];
    }
  }

  lemma PostQuiet<M>(s: Pipe<M>, t: nat)
    requires t < |s.threads| && Posting(s.threads[t].pc)
    ensures Quiet(s, PostStep(s, t), t)
  {
  }

  lemma LockQuiet<M>(s: Pipe<M>, t: nat)
    requires t < |s.threads| && (s.threads[t].pc.TakeLock? || s.threads[t].pc.TakeTest?)
    ensures Quiet(s, TakeStep(s, t), t)
  {
  }

  lemma TestQuiet<M>(s: Pipe<M>, t: nat)
    requires t < |s.threads| && s.threads[t].pc.TakeTestEmpty?
    ensures Quiet(s, TakeStep(s, t), t)
  {
  }

  lemma ClearQuiet<M>(s: Pipe<M>, t: nat)
    requires t < |s.threads| && s.threads[t].pc.TakeClear?
    ensures Quiet(s, TakeStep(s, t), t)
  {
    if s.wake == 0 {
      assert s.threads == s.threads[t := s.threads[t]];
    }
  }

  lemma UnlockQuiet<M>(s: Pipe<M>, t: nat)
    requires t < |s.threads| && s.threads[t].pc.TakeUnlock?
    ensures Quiet(s, TakeStep(s, t), t)
  {
  }

  lemma TakeQuiet<M>(s: Pipe<M>, t: nat)
    requires t < |s.threads| && Taking(s.threads[t].pc)
    requires !s.threads[t].pc.TakeUnlink? && !s.threads[t].pc.TakeRead?
    ensures Quiet(s, TakeStep(s, t), t)
  {
    hide Quiet, TakeStep;
    if s.threads[t].pc.TakeUnlock? {
      UnlockQuiet(s, t);
    } else if s.threads[t].pc.TakeLock? || s.threads[t].pc.TakeTest? {
      LockQuiet(s, t);
    } else if s.threads[t].pc.TakeTestEmpty? {
      TestQuiet(s, t);
    } else {
      ClearQuiet(s, t);
    }
  }

  lemma FreeQuiet<M>(s: Pipe<M>, t: nat)
    requires t < |s.threads| && Freeing(s.threads[t].pc) && !s.threads[t].pc.FreeMessages?
    ensures Quiet(s, FreeStep(s, t), t)
  {
  }

  /** The message `m` moves from the queue into the thread's hands. */
  ghost predicate TookOne<M>(s: Pipe<M>, n: Pipe<M>, t: nat, m: M) {
    && Moved(s, n, t) && InHand(s.threads[t].pc) == multiset{} && InHand(n.threads[t].pc) == multiset{m}
    && n.taken == s.taken + [m] && n.dropped == s.dropped && n.released == s.released
  }

  lemma TakeTookOne<M>(s: Pipe<M>, t: nat)
    requires t < |s.threads| && s.threads[t].pc.TakeUnlink? && s.queue != []
    ensures TookOne(s, TakeStep(s, t), t, s.queue[0])
  {
  }

  lemma TookAccounted<M>(s: Pipe<M>, n: Pipe<M>, t: nat, m: M)
    requires Accounted(s) && TookOne(s, n, t, m)
    ensures Accounted(n)
  {
    hide InHand;
    InHandChanged(s.threads, t, n.threads[t]);
    OneTaken(s.taken, m, multiset(s.dropped), multiset(s.released), AllInHand(s.threads), AllInHand(n.threads));
  }

  lemma TakenAccounted<M>(s: Pipe<M>, t: nat)
    requires t < |s.threads| && Accounted(s) && s.threads[t].pc.TakeUnlink?
    ensures Accounted(TakeStep(s, t))
  {
    hide Accounted, TookOne;
    if s.queue != [] {
      TakeTookOne(s, t);
      TookAccounted(s, TakeStep(s, t), t, s.queue[0]);
    }
  }

  lemma OneTaken<M>(taken: seq<M>, m: M, dropped: multiset<M>, released: multiset<M>, all: multiset<M>, all': multiset<M>)
    requires multiset(taken) + dropped == released + all && all' + multiset{} == all + multiset{m}
    ensures multiset(taken + [m]) + dropped == released + all'
  {
    forall x
      ensures (multiset(taken + [m]) + dropped)[x] == (released + all')[x]
    {
      assert (multiset(taken) + dropped)[x] == (released + all)[x];
      assert (all' + multiset{})[x] == (all + multiset{m})[x];
      assert multiset(taken + [m])[x] == (multiset(taken) + multiset{m})[x];
    }
  }

  lemma ReadAccounted<M>(s: Pipe<M>, t: nat)
    requires t < |s.threads| && Accounted(s) && s.threads[t].pc.TakeRead?
    ensures Accounted(TakeStep(s, t))
  {
    var n := TakeStep(s, t);
    var m := s.threads[t].pc.m;
    InHandChanged(s.threads, t, n.threads[t]);
    OneReleased(s.released, m, AllInHand(s.threads), AllInHand(n.threads));
  }

  lemma OneReleased<M>(released: seq<M>, m: M, all: multiset<M>, all': multiset<M>)
    requires all' + multiset{m} == all + multiset{}
    ensures multiset(released + [m]) + all' == multiset(released) + all
  {
    assert multiset(released + [m]) + all' == multiset(released) + (all' + multiset{m});
  }

  lemma DroppedAccounted<M>(s: Pipe<M>, t: nat)
    requires t < |s.threads| && Accounted(s) && s.threads[t].pc.FreeMessages?
    ensures Accounted(FreeStep(s, t))
  {
    hide Accounted, Quiet, DroppedOne;
    if s.queue == [] {
      LastDropped(s, t);
      QuietAccounted(s, FreeStep(s, t), t);
    } else {
      FreeDroppedOne(s, t);
      DroppedOneAccounted(s, FreeStep(s, t), s.queue[0]);
    }
  }

  lemma LastDropped<M>(s: Pipe<M>, t: nat)
    requires t < |s.threads| && s.threads[t].pc.FreeMessages? && s.queue == []
    ensures Quiet(s, FreeStep(s, t), t)
  {
  }

  ghost predicate DroppedOne<M>(s: Pipe<M>, n: Pipe<M>, m: M) {
    n.threads == s.threads && n.taken == s.taken && n.dropped == s.dropped + [m] && n.released == s.released + [m]
  }

  lemma FreeDroppedOne<M>(s: Pipe<M>, t: nat)
    requires t < |s.threads| && s.threads[t].pc.FreeMessages? && s.queue != []
    ensures DroppedOne(s, FreeStep(s, t), s.queue[0])
  {
  }

  lemma DroppedOneAccounted<M>(s: Pipe<M>, n: Pipe<M>, m: M)
    requires Accounted(s) && DroppedOne(s, n, m)
    ensures Accounted(n)
  {
    OneDropped(multiset(s.taken), s.dropped, m, s.released, AllInHand(s.threads));
  }

  lemma OneDropped<M>(taken: multiset<M>, dropped: seq<M>, m: M, released: seq<M>, all: multiset<M>)
    requires taken + multiset(dropped) == multiset(released) + all
    ensures taken + multiset(dropped + [m]) == multiset(released + [m]) + all
  {
    assert taken + multiset(dropped + [m]) == (taken + multiset(dropped)) + multiset{m};
    assert multiset(released + [m]) + all == (multiset(released) + all) + multiset{m};
  }

  lemma {:induction false} SameInHand<M>(a: seq<Thread<M>>, b: seq<Thread<M>>)
    requires |a| == |b| && forall t :: 0 <= t < |a| ==> InHand(a[t].pc) == InHand(b[t].pc)
    ensures AllInHand(a) == AllInHand(b)
  {
    hide InHand;
    if a != [] {
      SameInHand(a[1..], b[1..]);
    }
  }

  lemma IdleAccounted<M>(s: Pipe<M>, t: nat, c: Choice<M>)
    requires t < |s.threads| && Accounted(s) && s.threads[t].pc.Idle?
    ensures Accounted(IdleStep(s, t, c))
  {
    hide IdleStep, Locked;
    IdleBegan(s, t, c);
    SameInHand(s.threads, IdleStep(s, t, c).threads);
  }

  lemma StepAccounted<M>(s: Pipe<M>, t: nat, c: Choice<M>)
    requires t < |s.threads| && Accounted(s)
    ensures Accounted(Step(s, t, c))
  {
    hide Accounted, Quiet, IdleStep, PostStep, TakeStep, FreeStep;
    if s.threads[t].pc.Idle? {
      IdleAccounted(s, t, c);
    } else if s.threads[t].pc.TakeUnlink? {
      TakenAccounted(s, t);
    } else if s.threads[t].pc.TakeRead? {
      ReadAccounted(s, t);
    } else if s.threads[t].pc.FreeMessages? {
      DroppedAccounted(s, t);
    } else {
      if Posting(s.threads[t].pc) {
        PostQuiet(s, t);
      } else if Freeing(s.threads[t].pc) {
        FreeQuiet(s, t);
      } else {
        TakeQuiet(s, t);
      }
      QuietAccounted(s, Step(s, t, c), t);
    }
  }

  // the wake-up byte

  lemma PostSignalled<M>(s: Pipe<M>, t: nat)
    requires t < |s.threads| && Signalled(s) && Exclusive(s) && Posting(s.threads[t].pc) && s.refCount > 0
    ensures Signalled(PostStep(s, t))
  {
  }

  lemma EnterSignalled<M>(s: Pipe<M>, t: nat)
    requires t < |s.threads| && Signalled(s) && Exclusive(s) && Entering(s.threads[t].pc)
    requires Using(s.threads[t].pc) ==> s.refCount > 0
    ensures Signalled(TakeEnter(s, t))
  {
  }

  lemma LeaveSignalled<M>(s: Pipe<M>, t: nat)
    requires t < |s.threads| && Signalled(s) && Exclusive(s) && Leaving(s.threads[t].pc)
    requires Using(s.threads[t].pc) ==> s.refCount > 0
    ensures Signalled(TakeLeave(s, t))
  {
  }

  lemma TakeSignalled<M>(s: Pipe<M>, t: nat)
    requires t < |s.threads| && Signalled(s) && Exclusive(s) && Taking(s.threads[t].pc)
    requires Using(s.threads[t].pc) ==> s.refCount > 0
    ensures Signalled(TakeStep(s, t))
  {
    hide TakeEnter, TakeLeave, Signalled, Exclusive;
    if Entering(s.threads[t].pc) {
      EnterSignalled(s, t);
    } else {
      LeaveSignalled(s, t);
    }
  }

  lemma FreeSignalled<M>(s: Pipe<M>, t: nat)
    requires t < |s.threads| && Signalled(s) && Exclusive(s) && Freeing(s.threads[t].pc)
    requires s.threads[t].pc.FreeMessages? ==> s.mutex.None? && s.refCount == 0
    ensures Signalled(FreeStep(s, t))
  {
  }

  lemma IdleSignalled<M>(s: Pipe<M>, t: nat, c: Choice<M>)
    requires t < |s.threads| && Signalled(s) && Exclusive(s) && s.threads[t].pc.Idle?
    requires s.threads[t].refs > 0 ==> s.refCount > 0
    ensures Signalled(IdleStep(s, t, c))
  {
    IdleBegan(s, t, c);
  }

  /** While nobody holds a reference, nobody is in a critical section. */
  lemma UsersCounted<M>(s: Pipe<M>, t: nat)
    requires t < |s.threads| && Counted(s)
    ensures s.threads[t].refs <= s.refCount
    ensures Using(s.threads[t].pc) ==> s.refCount > 0
  {
    RefsAtLeast(s.threads, t);
  }

  lemma UnlockedAtEnd<M>(s: Pipe<M>)
    requires Counted(s) && Exclusive(s) && s.refCount == 0
    ensures s.mutex.None?
  {
    if s.mutex.Some? {
      UsersCounted(s, s.mutex.value);
    }
  }

  lemma EndingCounted<M>(s: Pipe<M>, t: nat)
    requires t < |s.threads| && Closing(s) && Ending(s.threads[t].pc) && Counted(s)
    ensures s.refCount == 0
  {
  }

  lemma StepSignalled<M>(s: Pipe<M>, t: nat, c: Choice<M>)
    requires t < |s.threads| && Signalled(s) && Exclusive(s) && Counted(s) && Closing(s)
    ensures Signalled(Step(s, t, c))
  {
    hide Signalled, Exclusive, Counted, Closing, IdleStep, PostStep, TakeStep, FreeStep;
    UsersCounted(s, t);
    if s.threads[t].pc.Idle? {
      IdleSignalled(s, t, c);
    } else if Posting(s.threads[t].pc) {
      PostSignalled(s, t);
    } else if Freeing(s.threads[t].pc) {
      if Ending(s.threads[t].pc) {
        EndingCounted(s, t);
        UnlockedAtEnd(s);
      }
      FreeSignalled(s, t);
    } else {
      TakeSignalled(s, t);
    }
  }

  // the end of the pipe

  /** Neither posting nor taking ends anything. */
  ghost predicate Alive<M>(s: Pipe<M>, n: Pipe<M>, t: nat) {
    && Moved(s, n, t) && !Freeing(s.threads[t].pc) && !Freeing(n.threads[t].pc)
    && n.refCount == s.refCount && n.closer == s.closer && n.live == s.live && n.frees == s.frees
    && n.mutexLive == s.mutexLive && n.wakerOpen == s.wakerOpen && n.dropped == s.dropped
    && (n.queue != s.queue ==> Using(s.threads[t].pc))
  }

  lemma PostAlive<M>(s: Pipe<M>, t: nat)
    requires t < |s.threads| && Posting(s.threads[t].pc)
    ensures Alive(s, PostStep(s, t), t)
  {
  }

  lemma EnterAlive<M>(s: Pipe<M>, t: nat)
    requires t < |s.threads| && Entering(s.threads[t].pc)
    ensures Alive(s, TakeEnter(s, t), t)
  {
  }

  lemma LeaveAlive<M>(s: Pipe<M>, t: nat)
    requires t < |s.threads| && Leaving(s.threads[t].pc)
    ensures Alive(s, TakeLeave(s, t), t)
  {
  }

  lemma TakeAlive<M>(s: Pipe<M>, t: nat)
    requires t < |s.threads| && Taking(s.threads[t].pc)
    ensures Alive(s, TakeStep(s, t), t)
  {
    hide TakeEnter, TakeLeave, Alive;
    if Entering(s.threads[t].pc) {
      EnterAlive(s, t);
    } else {
      LeaveAlive(s, t);
    }
  }

  lemma AliveClosing<M>(s: Pipe<M>, n: Pipe<M>, t: nat)
    requires Closing(s) && Alive(s, n, t)
    ensures Closing(n)
  {
  }

  lemma AliveStage<M>(s: Pipe<M>, n: Pipe<M>, t: nat)
    requires Stage(s) && Closing(s) && Alive(s, n, t) && (Using(s.threads[t].pc) ==> s.refCount > 0)
    ensures Stage(n)
  {
    hide Using, Balanced;
  }

  lemma FreeClosing<M>(s: Pipe<M>, t: nat)
    requires t < |s.threads| && Closing(s) && Freeing(s.threads[t].pc)
    ensures Closing(FreeStep(s, t))
  {
  }

  lemma FreeStage<M>(s: Pipe<M>, t: nat)
    requires t < |s.threads| && Closing(s) && Stage(s) && Freeing(s.threads[t].pc)
    ensures Stage(FreeStep(s, t))
  {
  }

  lemma ReleaseClosing<M>(s: Pipe<M>, t: nat)
    requires t < |s.threads| && Closing(s) && s.threads[t].pc.Idle? && 0 < s.threads[t].refs <= s.refCount
    ensures Closing(IdleStep(s, t, Release))
  {
  }

  lemma IdleClosing<M>(s: Pipe<M>, t: nat, c: Choice<M>)
    requires t < |s.threads| && Closing(s) && s.threads[t].pc.Idle? && s.threads[t].refs <= s.refCount
    ensures Closing(IdleStep(s, t, c))
  {
    if s.threads[t].refs > 0 && c.Release? {
      ReleaseClosing(s, t);
    } else {
      IdleBegan(s, t, c);
    }
  }

  lemma IdleStage<M>(s: Pipe<M>, t: nat, c: Choice<M>)
    requires t < |s.threads| && Closing(s) && Stage(s) && s.threads[t].pc.Idle? && s.threads[t].refs <= s.refCount
    ensures Stage(IdleStep(s, t, c))
  {
    IdleBegan(s, t, c);
  }

  lemma StepClosing<M>(s: Pipe<M>, t: nat, c: Choice<M>)
    requires t < |s.threads| && Closing(s) && Stage(s) && Counted(s)
    ensures Closing(Step(s, t, c)) && Stage(Step(s, t, c))
  {
    hide Closing, Stage, Counted, Alive, IdleStep, PostStep, TakeStep, FreeStep;
    UsersCounted(s, t);
    if s.threads[t].pc.Idle? {
      IdleClosing(s, t, c);
      IdleStage(s, t, c);
    } else if Freeing(s.threads[t].pc) {
      FreeClosing(s, t);
      FreeStage(s, t);
    } else {
      if Posting(s.threads[t].pc) {
        PostAlive(s, t);
      } else {
        TakeAlive(s, t);
      }
      AliveClosing(s, Step(s, t, c), t);
      AliveStage(s, Step(s, t, c), t);
    }
  }

  // ----- every run keeps it -----

  lemma StepInv<M>(s: Pipe<M>, t: nat, c: Choice<M>)
    requires t < |s.threads| && Inv(s)
    ensures Inv(Step(s, t, c))
  {
    hide Counted, Exclusive, Closing, Stage, Signalled, InOrder, Accounted, Step;
    StepCounted(s, t, c);
    StepExclusive(s, t, c);
    StepClosing(s, t, c);
    StepSignalled(s, t, c);
    StepAccounted(s, t, c);
    if s.threads[t].pc.TakeUnlink? {
      NothingDropped(s, t);
    }
    StepInOrder(s, t, c);
  }

  lemma NothingDropped<M>(s: Pipe<M>, t: nat)
    requires t < |s.threads| && Using(s.threads[t].pc) && Inv(s)
    ensures s.dropped == []
  {
    UsersCounted(s, t);
  }

  lemma {:induction false} RunInv<M>(s: Pipe<M>, schedule: seq<(nat, Choice<M>)>)
    requires Inv(s)
    ensures Inv(Run(s, schedule))
  {
    hide Inv, Step;
    if schedule != [] {
      RunInv(s, schedule[..|schedule| - 1]);
      var before := Run(s, schedule[..|schedule| - 1]);
      var turn := schedule[|schedule| - 1];
      if turn.0 < |before.threads| {
        StepInv(before, turn.0, turn.1);
      }
    }
  }

  // ----- what that means for a pipe from its creation on -----

  /** While the mutex is free, a wake-up byte is pending exactly when there is a message to take. */
  lemma NoWakeupLost<M>(s: Pipe<M>, maker: nat, schedule: seq<(nat, Choice<M>)>)
    requires Fresh(s, maker)
    ensures var n := Run(s, schedule);
      n.refCount > 0 && n.mutex.None? ==> (n.wake == if n.queue == [] then 0 else 1)
  {
    FreshInv(s, maker);
    RunInv(s, schedule);
  }

  /** The read that drains the wake-up byte always finds one, so it never blocks with the mutex held. */
  lemma ClearNeverBlocks<M>(s: Pipe<M>, maker: nat, schedule: seq<(nat, Choice<M>)>, t: nat)
    requires Fresh(s, maker)
    ensures var n := Run(s, schedule);
      t < |n.threads| && n.threads[t].pc.TakeClear? ==> n.wake == 1 && n.queue == [] && TakeStep(n, t).wake == 0
  {
    FreshInv(s, maker);
    RunInv(s, schedule);
  }

  /** Messages taken, followed by those still queued, are the messages posted, in order. */
  lemma Fifo<M>(s: Pipe<M>, maker: nat, schedule: seq<(nat, Choice<M>)>)
    requires Fresh(s, maker)
    ensures var n := Run(s, schedule);
      && n.posted == n.taken + n.dropped + n.queue
      && (n.refCount > 0 ==> n.posted == n.taken + n.queue)
  {
    hide Run, Fresh, Inv;
    FreshInv(s, maker);
    RunInv(s, schedule);
    FifoInv(Run(s, schedule));
  }

  lemma FifoInv<M>(s: Pipe<M>)
    requires Inv(s)
    ensures s.posted == s.taken + s.dropped + s.queue
    ensures s.refCount > 0 ==> s.posted == s.taken + s.queue
  {
    hide Counted, Exclusive, Signalled, Accounted;
    if s.refCount > 0 {
      assert s.taken + [] + s.queue == s.taken + s.queue;
    }
  }

  /** What a thread is about to access. */
  predicate NeedsMutex<M>(pc: Pc<M>) { Using(pc) || pc.FreeMutex? }

  predicate NeedsWaker<M>(pc: Pc<M>) { pc.PostSignal? || pc.TakeClear? || pc.FreeWaker? }

  predicate NeedsMemory<M>(pc: Pc<M>) { Using(pc) || pc.FreeMessages? || pc.FreeMutex? || pc.FreeWaker? || pc.FreeStruct? }

  /** Nothing is used after its end, and the mutex is not destroyed while it is held. */
  ghost predicate SafeToStep<M>(s: Pipe<M>, t: nat)
    requires t < |s.threads|
  {
    var th := s.threads[t];
    && (NeedsMutex(th.pc) ==> s.mutexLive)
    && (NeedsWaker(th.pc) ==> s.wakerOpen)
    && (NeedsMemory(th.pc) || th.refs > 0 ==> s.live)
    && (th.pc.FreeMutex? ==> s.mutex.None?)
    && (th.pc.FreeTest? ==> th.pc.left >= 0)
  }

  lemma NoUseAfterFree<M>(s: Pipe<M>, maker: nat, schedule: seq<(nat, Choice<M>)>, t: nat)
    requires Fresh(s, maker)
    ensures var n := Run(s, schedule);
      && n.frees <= 1 && (n.frees == 1 ==> !n.live && n.refCount == 0)
      && (t < |n.threads| ==> SafeToStep(n, t))
  {
    FreshInv(s, maker);
    RunInv(s, schedule);
    var n := Run(s, schedule);
    if t < |n.threads| {
      hide Run;
      SafeInv(n, t);
    }
  }

  lemma SafeInv<M>(s: Pipe<M>, t: nat)
    requires Inv(s) && t < |s.threads|
    ensures SafeToStep(s, t)
  {
    UsersCounted(s, t);
    if s.refCount == 0 {
      UnlockedAtEnd(s);
    }
  }

  /** When every thread is done and has let go of its references, the pipe and every message were freed once. */
  lemma AllFreed<M>(s: Pipe<M>, maker: nat, schedule: seq<(nat, Choice<M>)>)
    requires Fresh(s, maker)
    requires forall t :: 0 <= t < |Run(s, schedule).threads| ==> Run(s, schedule).threads[t] == Thread(Idle, 0)
    ensures var n := Run(s, schedule);
      && n.frees == 1 && !n.live && !n.mutexLive && !n.wakerOpen && n.queue == []
      && multiset(n.released) == multiset(n.posted)
  {
    FreshInv(s, maker);
    RunInv(s, schedule);
    hide Run;
    DoneFreed(Run(s, schedule));
  }

  lemma NooneCloses<M>(s: Pipe<M>)
    requires Closing(s) && s.refCount == 0 && forall t :: 0 <= t < |s.threads| ==> !Ending(s.threads[t].pc)
    ensures !s.live
  {
  }

  lemma DoneFreed<M>(s: Pipe<M>)
    requires Inv(s) && forall t :: 0 <= t < |s.threads| ==> s.threads[t] == Thread(Idle, 0)
    ensures s.frees == 1 && !s.live && !s.mutexLive && !s.wakerOpen && s.queue == []
    ensures multiset(s.released) == multiset(s.posted)
  {
    NoRefs(s.threads);
    NoneInHand(s.threads);
    NooneCloses(s);
    assert s.posted == s.taken + s.dropped;
  }

  /** As long as some thread is busy, some thread can move: there is no deadlock. */
  lemma SomeoneMoves<M>(s: Pipe<M>, maker: nat, schedule: seq<(nat, Choice<M>)>, busy: nat) returns (t: nat)
    requires Fresh(s, maker)
    requires busy < |Run(s, schedule).threads| && !Run(s, schedule).threads[busy].pc.Idle?
    ensures t < |Run(s, schedule).threads|
    ensures forall c :: Step(Run(s, schedule), t, c) != Run(s, schedule)
  {
    FreshInv(s, maker);
    RunInv(s, schedule);
    var n := Run(s, schedule);
    hide Run;
    if n.mutex.Some? {
      t := n.mutex.value;
      HolderMoves(n, t);
    } else {
      t := busy;
      FreeToMove(n, t);
    }
  }

  lemma HolderMoves<M>(s: Pipe<M>, t: nat)
    requires Inv(s) && s.mutex == Some(t)
    ensures t < |s.threads| && forall c :: Step(s, t, c) != s
  {
    hide Counted, Closing, Stage, InOrder, Accounted;
    assert Locked(s.threads[t].pc);
    forall c
      ensures Step(s, t, c) != s
    {
      assert Step(s, t, c).threads[t].pc != s.threads[t].pc;
    }
  }

  lemma FreeToMove<M>(s: Pipe<M>, t: nat)
    requires t < |s.threads| && s.mutex.None? && !s.threads[t].pc.Idle? && !Locked(s.threads[t].pc)
    ensures forall c :: Step(s, t, c) != s
  {
    forall c
      ensures Step(s, t, c) != s
    {
      if s.threads[t].pc.FreeMessages? && s.queue != [] {
        assert |Step(s, t, c).queue| < |s.queue|;
      } else {
        assert Step(s, t, c).threads[t].pc != s.threads[t].pc;
      }
    }
  }

  // ----- whole operations of one thread -----

  /** Thread `t` makes `n` more steps while the others wait. */
  function Alone<M>(s: Pipe<M>, t: nat, n: nat): Pipe<M>
    requires t < |s.threads|
    decreases n
  {
    if n == 0 then s
    else
      StepThreads(s, t);
      Alone(Step(s, t, Rest), t, n - 1)
  }

  lemma StepThreads<M>(s: Pipe<M>, t: nat)
    requires t < |s.threads|
    ensures |Step(s, t, Rest).threads| == |s.threads|
  {
    if !s.threads[t].pc.Idle? {
      StepWorked(s, t, Rest);
    }
  }

  ghost predicate TookHead<M>(s: Pipe<M>, n: Pipe<M>) {
    && s.queue != []
    && n == s.(queue := s.queue[1..], wake := if |s.queue| == 1 then 0 else s.wake,
               taken := s.taken + [s.queue[0]], released := s.released + [s.queue[0]])
  }

  lemma TakeNothing<M>(s: Pipe<M>, t: nat)
    requires t < |s.threads| && s.threads[t].pc.Idle? && s.threads[t].refs > 0 && s.mutex.None? && s.queue == []
    ensures Alone(Step(s, t, Take), t, 3) == s
  {
    assert s.threads[t := s.threads[t]] == s.threads;
  }

  lemma TakeFirst<M>(s: Pipe<M>, t: nat)
    requires t < |s.threads| && s.threads[t].pc.TakeLock? && s.mutex.None? && s.queue != []
    ensures Alone(s, t, 3) == Goto(s, t, TakeTestEmpty(s.queue[0])).(
      mutex := Some(t), queue := s.queue[1..], taken := s.taken + [s.queue[0]])
  {
    hide Alone;
    LockAndTest(s, t);
    Unlink(Alone(s, t, 2), t);
    AloneOn(s, t, 2, 1);
  }

  lemma LockAndTest<M>(s: Pipe<M>, t: nat)
    requires t < |s.threads| && s.threads[t].pc.TakeLock? && s.mutex.None? && s.queue != []
    ensures Alone(s, t, 2) == Goto(s, t, TakeUnlink).(mutex := Some(t))
  {
  }

  lemma Unlink<M>(s: Pipe<M>, t: nat)
    requires t < |s.threads| && s.threads[t].pc.TakeUnlink? && s.queue != []
    ensures Alone(s, t, 1) == Goto(s, t, TakeTestEmpty(s.queue[0])).(queue := s.queue[1..], taken := s.taken + [s.queue[0]])
  {
  }

  lemma LeaveOthers<M>(s: Pipe<M>, t: nat, m: M)
    requires t < |s.threads| && s.threads[t].pc == TakeTestEmpty(m) && s.queue != []
    ensures Alone(s, t, 3) == Goto(s, t, Idle).(mutex := None, released := s.released + [m])
  {
    hide Alone;
    assert Alone(s, t, 1) == Goto(s, t, TakeUnlock(Some(m))) by {
      StepOthers(s, t, m);
    }
    Leave(Alone(s, t, 1), t, m);
    AloneOn(s, t, 1, 2);
  }

  lemma StepOthers<M>(s: Pipe<M>, t: nat, m: M)
    requires t < |s.threads| && s.threads[t].pc == TakeTestEmpty(m) && s.queue != []
    ensures Alone(s, t, 1) == Goto(s, t, TakeUnlock(Some(m)))
  {
  }

  lemma LeaveEmpty<M>(s: Pipe<M>, t: nat, m: M)
    requires t < |s.threads| && s.threads[t].pc == TakeTestEmpty(m) && s.queue == [] && s.wake == 1
    ensures Alone(s, t, 4) == Goto(s, t, Idle).(mutex := None, wake := 0, released := s.released + [m])
  {
    hide Alone;
    var a := Alone(s, t, 2);
    Drain(s, t, m);
    Leave(a, t, m);
    AloneOn(s, t, 2, 2);
  }

  lemma Drain<M>(s: Pipe<M>, t: nat, m: M)
    requires t < |s.threads| && s.threads[t].pc == TakeTestEmpty(m) && s.queue == [] && s.wake == 1
    ensures Alone(s, t, 2) == Goto(s, t, TakeUnlock(Some(m))).(wake := 0)
  {
  }

  lemma Leave<M>(s: Pipe<M>, t: nat, m: M)
    requires t < |s.threads| && s.threads[t].pc == TakeUnlock(Some(m))
    ensures Alone(s, t, 2) == Goto(s, t, Idle).(mutex := None, released := s.released + [m])
  {
  }

  lemma {:induction false} AloneOn<M>(s: Pipe<M>, t: nat, m: nat, n: nat)
    requires t < |s.threads|
    ensures |Alone(s, t, m).threads| == |s.threads|
    ensures Alone(s, t, m + n) == Alone(Alone(s, t, m), t, n)
    decreases m
  {
    hide Step;
    if m > 0 {
      StepThreads(s, t);
      AloneOn(Step(s, t, Rest), t, m - 1, n);
    }
  }

  /**
   * A handler that starts when the mutex is free takes the oldest message and leaves the wake-up byte
   * pending exactly when more messages wait; with an empty queue it changes nothing.
   */
  lemma TakeWhole<M>(s: Pipe<M>, t: nat)
    requires Inv(s) && t < |s.threads| && s.threads[t].pc.Idle? && s.threads[t].refs > 0 && s.mutex.None?
    ensures s.queue == [] ==> Alone(Step(s, t, Take), t, 3) == s
    ensures |s.queue| > 1 ==> TookHead(s, Alone(Step(s, t, Take), t, 6))
    ensures |s.queue| == 1 ==> TookHead(s, Alone(Step(s, t, Take), t, 7))
  {
    hide Counted, Exclusive, Closing, Stage, InOrder, Accounted, Alone;
    if s.queue == [] {
      TakeNothing(s, t);
    } else {
      UsersCounted(s, t);
      var a := Goto(s, t, TakeLock);
      TakeFirst(a, t);
      var b := Alone(a, t, 3);
      var m := s.queue[0];
      AloneOn(a, t, 3, 3);
      AloneOn(a, t, 3, 4);
      assert s.threads[t := s.threads[t]] == s.threads;
      if |s.queue| > 1 {
        LeaveOthers(b, t, m);
      } else {
        LeaveEmpty(b, t, m);
      }
    }
  }
}
