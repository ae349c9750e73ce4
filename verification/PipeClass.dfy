/** The pipe as the program keeps it, updated in place by the threads' steps. */
module PipeClass {
  import opened Optional
  import opened PipeModel
  import opened PipeSafe

  class MessagePipe<M(==)> {
    var refCount: int
    var mutex: Option<nat>
    var msgQueue: seq<M>
    var wakeBytes: nat
    var threads: seq<Thread<M>>
    ghost var mutexLive: bool
    ghost var wakerOpen: bool
    ghost var live: bool
    ghost var posted: seq<M>
    ghost var taken: seq<M>
    ghost var dropped: seq<M>
    ghost var released: seq<M>
    ghost var closer: Option<nat>
    ghost var frees: nat

    ghost function View(): Pipe<M>
      reads this
    {
      Pipe(refCount, mutex, msgQueue, wakeBytes, mutexLive, wakerOpen, live, threads,
           posted, taken, dropped, released, closer, frees)
    }

    /** js_new_message_pipe, called by thread `maker` of `n`. */
    constructor (n: nat, maker: nat)
      requires maker < n
      ensures Fresh(View(), maker) && |threads| == n && Inv(View())
    {
      refCount, mutex, msgQueue, wakeBytes := 1, None, [], 0;
      threads := seq(n, t => Thread(Idle, if t == maker then 1 else 0));
      mutexLive, wakerOpen, live := true, true, true;
      posted, taken, dropped, released, closer, frees := [], [], [], [], None, 0;
      new;
      FreshInv(View(), maker);
    }

    method Goto(t: nat, pc: Pc<M>)
      requires t < |threads|
      modifies this`threads
      ensures View() == PipeModel.Goto(old(View()), t, pc)
    {
      threads := threads[t := threads[t].(pc := pc)];
    }

    /** An idle thread starts an operation, or passes references on. */
    method IdleStep(t: nat, c: Choice<M>)
      requires t < |threads|
      modifies this
      ensures View() == PipeModel.IdleStep(old(View()), t, c)
    {
      var th := threads[t];
      if th.refs > 0 {
        match c {
          case Rest =>
          case Post(m) => Goto(t, PostLock(m));
          case Take => Goto(t, TakeLock);
          case Dup =>
            refCount := refCount + 1;
            threads := threads[t := th.(refs := th.refs + 1)];
          case Give(u) =>
            if u < |threads| && u != t {
              threads := threads[t := th.(refs := th.refs - 1)];
              threads := threads[u := threads[u].(refs := threads[u].refs + 1)];
            }
          case Release =>
            refCount := refCount - 1;
            threads := threads[t := Thread(FreeTest(refCount), th.refs - 1)];
            if refCount == 0 {
              closer := Some(t);
            }
        }
      }
    }

    /** js_worker_postMessage. */
    method PostStep(t: nat)
      requires t < |threads| && Posting(threads[t].pc)
      modifies this
      ensures View() == PipeModel.PostStep(old(View()), t)
    {
      match threads[t].pc {
        case PostLock(m) =>
          if mutex.None? {
            mutex := Some(t);
            Goto(t, PostTest(m));
          }
        case PostTest(m) =>
          if msgQueue == [] {
            Goto(t, PostSignal(m));
          } else {
            Goto(t, PostAppend(m));
          }
        case PostSignal(m) =>
          wakeBytes := wakeBytes + 1;
          Goto(t, PostAppend(m));
        case PostAppend(m) =>
          msgQueue := msgQueue + [m];
          posted := posted + [m];
          Goto(t, PostUnlock);
        case PostUnlock =>
          mutex := None;
          Goto(t, Idle);
      }
    }

    /** handle_posted_message: the first message leaves the queue. */
    method TakeEnter(t: nat)
      requires t < |threads| && Entering(threads[t].pc)
      modifies this
      ensures View() == PipeModel.TakeEnter(old(View()), t)
    {
      match threads[t].pc {
        case TakeLock =>
          if mutex.None? {
            mutex := Some(t);
            Goto(t, TakeTest);
          }
        case TakeTest =>
          if msgQueue == [] {
            Goto(t, TakeUnlock(None));
          } else {
            Goto(t, TakeUnlink);
          }
        case TakeUnlink =>
          if msgQueue != [] {
            var m := msgQueue[0];
            msgQueue := msgQueue[1..];
            taken := taken + [m];
            Goto(t, TakeTestEmpty(m));
          }
      }
    }

    /** handle_posted_message: the wake-up byte is drained, the message read and freed. */
    method TakeLeave(t: nat)
      requires t < |threads| && Leaving(threads[t].pc)
      modifies this
      ensures View() == PipeModel.TakeLeave(old(View()), t)
    {
      match threads[t].pc {
        case TakeTestEmpty(m) =>
          if msgQueue == [] {
            Goto(t, TakeClear(m));
          } else {
            Goto(t, TakeUnlock(Some(m)));
          }
        case TakeClear(m) =>
          if wakeBytes > 0 {
            wakeBytes := if wakeBytes > CLEAR_BYTES then wakeBytes - CLEAR_BYTES else 0;
            Goto(t, TakeUnlock(Some(m)));
          }
        case TakeUnlock(got) =>
          mutex := None;
          if got.None? {
            Goto(t, Idle);
          } else {
            Goto(t, TakeRead(got.value));
          }
        case TakeRead(m) =>
          released := released + [m];
          Goto(t, Idle);
      }
    }

    /** js_free_message_pipe. */
    method FreeStep(t: nat)
      requires t < |threads| && Freeing(threads[t].pc)
      modifies this
      ensures View() == PipeModel.FreeStep(old(View()), t)
    {
      match threads[t].pc {
        case FreeTest(left) =>
          if left == 0 {
            Goto(t, FreeMessages);
          } else {
            Goto(t, Idle);
          }
        case FreeMessages =>
          if msgQueue == [] {
            Goto(t, FreeMutex);
          } else {
            dropped := dropped + [msgQueue[0]];
            released := released + [msgQueue[0]];
            msgQueue := msgQueue[1..];
          }
        case FreeMutex =>
          mutexLive := false;
          Goto(t, FreeWaker);
        case FreeWaker =>
          wakerOpen := false;
          Goto(t, FreeStruct);
        case FreeStruct =>
          live, frees := false, frees + 1;
          Goto(t, Idle);
      }
    }

    /** Thread `t` takes a turn: it touches nothing that is gone, and the invariant survives. */
    method Step(t: nat, c: Choice<M>)
      requires Inv(View()) && t < |threads|
      modifies this
      ensures SafeToStep(old(View()), t)
      ensures View() == PipeModel.Step(old(View()), t, c) && Inv(View())
    {
      hide Inv, SafeToStep, PipeModel.IdleStep, PipeModel.PostStep, PipeModel.TakeEnter, PipeModel.TakeLeave, PipeModel.FreeStep;
      SafeInv(View(), t);
      StepInv(View(), t, c);
      if threads[t].pc.Idle? {
        IdleStep(t, c);
      } else if Posting(threads[t].pc) {
        PostStep(t);
      } else if Freeing(threads[t].pc) {
        FreeStep(t);
      } else if Entering(threads[t].pc) {
        TakeEnter(t);
      } else {
        TakeLeave(t);
      }
    }

    /** Any schedule of the threads' turns, from a pipe in a good state. */
    method Run(schedule: seq<(nat, Choice<M>)>)
      requires Inv(View())
      modifies this
      ensures View() == PipeModel.Run(old(View()), schedule) && Inv(View())
    {
      hide Inv, PipeModel.Step;
      ghost var start := View();
      for i := 0 to |schedule|
        invariant Inv(View()) && View() == PipeModel.Run(start, schedule[..i])
      {
        assert schedule[..i + 1][..i] == schedule[..i];
        if schedule[i].0 < |threads| {
          Step(schedule[i].0, schedule[i].1);
        }
      }
      assert schedule[..|schedule|] == schedule;
    }
  }
}
