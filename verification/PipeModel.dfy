/**
 * The message pipe that workers share, as a state machine: every step is one action of one thread
 * that the others can observe. The steps of any number of threads interleave in any order.
 */
module PipeModel {
  import opened Optional

  /** Where a thread stands in the operation it performs on the pipe. */
  datatype Pc<M> =
    | Idle
    | PostLock(m: M) | PostTest(m: M) | PostSignal(m: M) | PostAppend(m: M) | PostUnlock
    | TakeLock | TakeTest | TakeUnlink | TakeTestEmpty(m: M) | TakeClear(m: M) | TakeUnlock(got: Option<M>) | TakeRead(m: M)
    | FreeTest(left: int) | FreeMessages | FreeMutex | FreeWaker | FreeStruct

  /** `refs` counts the references to the pipe that the thread holds. */
  datatype Thread<M> = Thread(pc: Pc<M>, refs: nat)

  /**
   * The pipe and its threads. `wake` counts the bytes in the operating system's pipe. The last fields are
   * a record of the run: the messages posted, taken by a handler, dropped at the end and freed, the thread
   * that let go of the last reference, and how often the memory was freed.
   */
  datatype Pipe<M> = Pipe(
    refCount: int, mutex: Option<nat>, queue: seq<M>, wake: nat,
    mutexLive: bool, wakerOpen: bool, live: bool, threads: seq<Thread<M>>,
    posted: seq<M>, taken: seq<M>, dropped: seq<M>, released: seq<M>, closer: Option<nat>, frees: nat)

  /** What an idle thread does next. */
  datatype Choice<M> = Rest | Post(m: M) | Take | Dup | Give(to: nat) | Release

  /** js_waker_clear reads at most 16 bytes. */
  const CLEAR_BYTES := 16

  function Goto<M>(s: Pipe<M>, t: nat, pc: Pc<M>): Pipe<M>
    requires t < |s.threads|
  {
    s.(threads := s.threads[t := s.threads[t].(pc := pc)])
  }

  function Holding<M>(s: Pipe<M>, t: nat, refs: nat): Pipe<M>
    requires t < |s.threads|
  {
    s.(threads := s.threads[t := s.threads[t].(refs := refs)])
  }

  /** Only a thread that holds a reference uses the pipe. */
  function IdleStep<M>(s: Pipe<M>, t: nat, c: Choice<M>): Pipe<M>
    requires t < |s.threads|
  {
    var refs := s.threads[t].refs;
    if refs == 0 then s else
      match c
      case Rest => s
      case Post(m) => Goto(s, t, PostLock(m))
      case Take => Goto(s, t, TakeLock)
      case Dup => Holding(s, t, refs + 1).(refCount := s.refCount + 1)
      case Give(u) =>
        if u < |s.threads| && u != t then Holding(Holding(s, t, refs - 1), u, s.threads[u].refs + 1) else s
      case Release =>
        var left := s.refCount - 1;
        Goto(Holding(s, t, refs - 1), t, FreeTest(left)).(refCount := left, closer := if left == 0 then Some(t) else s.closer)
  }

  /** js_worker_postMessage, from the lock on. */
  function PostStep<M>(s: Pipe<M>, t: nat): Pipe<M>
    requires t < |s.threads|
  {
    match s.threads[t].pc
    case PostLock(m) => if s.mutex.None? then Goto(s, t, PostTest(m)).(mutex := Some(t)) else s
    case PostTest(m) => Goto(s, t, if s.queue == [] then PostSignal(m) else PostAppend(m))
    case PostSignal(m) => Goto(s, t, PostAppend(m)).(wake := s.wake + 1)
    case PostAppend(m) => Goto(s, t, PostUnlock).(queue := s.queue + [m], posted := s.posted + [m])
    case PostUnlock => Goto(s, t, Idle).(mutex := None)
    case _ => s
  }

  /** handle_posted_message: taking the first message from the queue. */
  function TakeEnter<M>(s: Pipe<M>, t: nat): Pipe<M>
    requires t < |s.threads|
  {
    match s.threads[t].pc
    case TakeLock => if s.mutex.None? then Goto(s, t, TakeTest).(mutex := Some(t)) else s
    case TakeTest => Goto(s, t, if s.queue == [] then TakeUnlock(None) else TakeUnlink)
    case TakeUnlink =>
      if s.queue == [] then s
      else Goto(s, t, TakeTestEmpty(s.queue[0])).(queue := s.queue[1..], taken := s.taken + [s.queue[0]])
    case _ => s
  }

  /** handle_posted_message: draining the wake-up byte, unlocking and freeing the message. */
  function TakeLeave<M>(s: Pipe<M>, t: nat): Pipe<M>
    requires t < |s.threads|
  {
    match s.threads[t].pc
    case TakeTestEmpty(m) => Goto(s, t, if s.queue == [] then TakeClear(m) else TakeUnlock(Some(m)))
    case TakeClear(m) =>
      // the read blocks while there is nothing to read
      if s.wake == 0 then s
      else Goto(s, t, TakeUnlock(Some(m))).(wake := if s.wake > CLEAR_BYTES then s.wake - CLEAR_BYTES else 0)
    case TakeUnlock(got) => Goto(s, t, if got.None? then Idle else TakeRead(got.value)).(mutex := None)
    case TakeRead(m) => Goto(s, t, Idle).(released := s.released + [m])
    case _ => s
  }

  predicate Entering<M>(pc: Pc<M>) { pc.TakeLock? || pc.TakeTest? || pc.TakeUnlink? }

  function TakeStep<M>(s: Pipe<M>, t: nat): Pipe<M>
    requires t < |s.threads|
  {
    if Entering(s.threads[t].pc) then TakeEnter(s, t) else TakeLeave(s, t)
  }

  /** js_free_message_pipe, after the atomic decrement. */
  function FreeStep<M>(s: Pipe<M>, t: nat): Pipe<M>
    requires t < |s.threads|
  {
    match s.threads[t].pc
    case FreeTest(left) => Goto(s, t, if left == 0 then FreeMessages else Idle)
    case FreeMessages =>
      if s.queue == [] then Goto(s, t, FreeMutex)
      else s.(queue := s.queue[1..], dropped := s.dropped + [s.queue[0]], released := s.released + [s.queue[0]])
    case FreeMutex => Goto(s, t, FreeWaker).(mutexLive := false)
    case FreeWaker => Goto(s, t, FreeStruct).(wakerOpen := false)
    case FreeStruct => Goto(s, t, Idle).(live := false, frees := s.frees + 1)
    case _ => s
  }

  /** One step of thread `t`; a thread that has to wait stays where it is. */
  function Step<M>(s: Pipe<M>, t: nat, c: Choice<M>): Pipe<M>
    requires t < |s.threads|
  {
    var pc := s.threads[t].pc;
    if pc.Idle? then IdleStep(s, t, c)
    else if pc.PostLock? || pc.PostTest? || pc.PostSignal? || pc.PostAppend? || pc.PostUnlock? then PostStep(s, t)
    else if pc.FreeTest? || pc.FreeMessages? || pc.FreeMutex? || pc.FreeWaker? || pc.FreeStruct? then FreeStep(s, t)
    else TakeStep(s, t)
  }

  /** A new pipe: the thread that made it holds the only reference. */
  ghost predicate Fresh<M>(s: Pipe<M>, maker: nat) {
    && s.refCount == 1 && s.mutex == None && s.queue == [] && s.wake == 0
    && s.mutexLive && s.wakerOpen && s.live
    && s.posted == [] && s.taken == [] && s.dropped == [] && s.released == [] && s.closer == None && s.frees == 0
    && maker < |s.threads|
    && forall t :: 0 <= t < |s.threads| ==> s.threads[t] == Thread(Idle, if t == maker then 1 else 0)
  }

  /** The state after the turns of `schedule`; turns of threads that do not exist are skipped. */
  function Run<M>(s: Pipe<M>, schedule: seq<(nat, Choice<M>)>): Pipe<M>
    decreases |schedule|
  {
    if schedule == [] then s
    else
      var before := Run(s, schedule[..|schedule| - 1]);
      var turn := schedule[|schedule| - 1];
      if turn.0 < |before.threads| then Step(before, turn.0, turn.1) else before
  }
}
