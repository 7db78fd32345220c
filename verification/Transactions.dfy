/** The transaction manager (src/transaction/transaction_manager.cpp): one caller hands functions to a
    worker thread and waits for each.  Every method below is one critical section or one piece of work
    between two of them, so a sequence of them is an interleaving of the two threads. */
module Transactions {

  /** How a function ended. */
  datatype Outcome = Completed | Raised(error: int)

  datatype Task = Task(id: nat, fn: nat)

  datatype Caller = Free | Waiting(task: Task)

  datatype Worker = Idle | Running(task: Task) | Finished(task: Task, outcome: Outcome)

  /** What the two threads can do next; `Run` lets the function end in any way. */
  datatype Step = Call(fn: nat) | Take | Run(outcome: Outcome) | Publish | Return

  class TransactionManager {
    var nextTxnId: nat
    var completedTxnId: nat
    var queue: seq<Task>
    var exception_: Outcome      // Completed when there is none
    var caller: Caller
    var worker: Worker
    // what has happened, for the specification
    ghost var called: seq<nat>
    ghost var ended: seq<(nat, Outcome)>
    ghost var returned: seq<(nat, Outcome)>

    constructor ()
      ensures Valid() && called == [] && ended == [] && returned == []
    {
      nextTxnId, completedTxnId, queue, exception_, caller, worker := 1, 0, [], Completed, Free, Idle;
      called, ended, returned := [], [], [];
    }

    /** Where the one task of the caller is: in the queue, in the hands of the worker, or done. */
    ghost predicate Valid()
      reads this
    {
      && nextTxnId >= 1
      && |called| == nextTxnId - 1
      && |ended| <= |called| && (forall i :: 0 <= i < |ended| ==> ended[i].0 == called[i])
      && (match caller
          case Free => queue == [] && worker == Idle && completedTxnId == nextTxnId - 1 && |ended| == |called|
            && returned == ended
          case Waiting(task) =>
            && nextTxnId > 1 && task == Task(nextTxnId - 1, called[|called| - 1])
            && |returned| == |called| - 1 && returned <= ended
            && ( || (&& queue == [task] && worker == Idle
                     && completedTxnId == task.id - 1 && exception_ == Completed && |ended| == |called| - 1)
                 || (&& queue == [] && worker == Running(task)
                     && completedTxnId == task.id - 1 && exception_ == Completed && |ended| == |called| - 1)
                 || (&& queue == [] && worker.Finished? && worker.task == task
                     && completedTxnId == task.id - 1 && exception_ == Completed
                     && |ended| == |called| && ended[|ended| - 1] == (task.fn, worker.outcome))
                 || (&& queue == [] && worker == Idle && completedTxnId == task.id
                     && |ended| == |called| && ended[|ended| - 1] == (task.fn, exception_))))
    }

    /** The caller hands a function over and starts to wait. */
    method Enqueue(fn: nat)
      requires Valid() && caller == Free
      modifies this
      ensures Valid() && caller == Waiting(Task(old(nextTxnId), fn)) && queue == [Task(old(nextTxnId), fn)]
      ensures called == old(called) + [fn] && ended == old(ended) && returned == old(returned) && worker == old(worker)
    {
      var task := Task(nextTxnId, fn);
      nextTxnId := nextTxnId + 1;
      exception_ := Completed;
      queue := queue + [task];
      caller := Waiting(task);
      called := called + [fn];
    }

    /** The worker takes the first task, if there is one. */
    method TakeTask()
      requires Valid() && worker == Idle
      modifies this
      ensures Valid()
      ensures worker == if old(queue) == [] then Idle else Running(old(queue)[0])
      ensures queue == if old(queue) == [] then [] else old(queue)[1..]
      ensures called == old(called) && ended == old(ended) && returned == old(returned) && caller == old(caller)
    {
      if queue == [] {
        return;
      }
      worker := Running(queue[0]);
      queue := queue[1..];
    }

    /** The function of the task ends in some way. */
    method Finish(outcome: Outcome)
      requires Valid() && worker.Running?
      modifies this
      ensures Valid() && worker == Finished(old(worker).task, outcome) && queue == old(queue)
      ensures called == old(called) && ended == old(ended) + [(old(worker).task.fn, outcome)]
      ensures returned == old(returned) && caller == old(caller)
    {
      ended := ended + [(worker.task.fn, outcome)];
      worker := Finished(worker.task, outcome);
    }

    /** The worker publishes how it ended. */
    method PublishOutcome()
      requires Valid() && worker.Finished?
      modifies this
      ensures Valid() && worker == Idle && completedTxnId == old(worker).task.id
      ensures exception_ == old(worker).outcome && queue == old(queue)
      ensures called == old(called) && ended == old(ended) && returned == old(returned) && caller == old(caller)
    {
      match worker.outcome
      case Raised(e) =>
        exception_ := Raised(e);
        completedTxnId := worker.task.id;
        worker := Idle;
      case Completed =>
        completedTxnId := worker.task.id;
        worker := Idle;
    }

    /** The caller wakes up: it goes on waiting, or learns how its own function ended. */
    method WakeUp() returns (done: bool, outcome: Outcome)
      requires Valid() && caller.Waiting?
      modifies this
      ensures Valid()
      ensures called == old(called) && ended == old(ended) && worker == old(worker) && queue == old(queue)
      ensures done <==> |old(ended)| == |called| && old(worker) == Idle
      ensures done ==>
        && caller == Free && ended[|ended| - 1] == (old(caller).task.fn, outcome)
        && returned == old(returned) + [(old(caller).task.fn, outcome)]
      ensures !done ==> caller == old(caller) && returned == old(returned)
    {
      if completedTxnId < caller.task.id {
        return false, Completed;
      }
      outcome := exception_;
      returned := returned + [(caller.task.fn, outcome)];
      caller := Free;
      assert returned == ended;
      return true, outcome;
    }

    predicate Enabled(step: Step)
      reads this
    {
      match step
      case Call(_) => caller == Free
      case Take => worker == Idle
      case Run(_) => worker.Running?
      case Publish => worker.Finished?
      case Return => caller.Waiting?
    }

    /** What a step does: that of its method if it can be taken, else nothing. */
    twostate predicate Taken(step: Step)
      reads this
    {
      if !old(Enabled(step)) then
        && caller == old(caller) && worker == old(worker) && queue == old(queue) && exception_ == old(exception_)
        && completedTxnId == old(completedTxnId) && nextTxnId == old(nextTxnId)
        && called == old(called) && ended == old(ended) && returned == old(returned)
      else match step
        case Call(fn) =>
          && caller == Waiting(Task(old(nextTxnId), fn)) && queue == [Task(old(nextTxnId), fn)]
          && worker == old(worker)
          && called == old(called) + [fn] && ended == old(ended) && returned == old(returned)
        case Take =>
          && worker == (if old(queue) == [] then Idle else Running(old(queue)[0]))
          && queue == (if old(queue) == [] then [] else old(queue)[1..]) && caller == old(caller)
          && called == old(called) && ended == old(ended) && returned == old(returned)
        case Run(outcome) =>
          && worker == Finished(old(worker).task, outcome) && caller == old(caller) && queue == old(queue)
          && called == old(called) && ended == old(ended) + [(old(worker).task.fn, outcome)]
            && returned == old(returned)
        case Publish =>
          && worker == Idle && completedTxnId == old(worker).task.id && exception_ == old(worker).outcome
          && caller == old(caller) && queue == old(queue)
          && called == old(called) && ended == old(ended) && returned == old(returned)
        case Return =>
          && called == old(called) && ended == old(ended) && worker == old(worker) && queue == old(queue)
          && if ended != [] && |ended| == |called| && worker == Idle
             then caller == Free && returned == old(returned) + [ended[|ended| - 1]]
             else caller == old(caller) && returned == old(returned)
    }

    method Do(step: Step)
      requires Valid()
      modifies this
      ensures Valid() && Taken(step)
      ensures called == old(called) + if old(Enabled(step)) && step.Call? then [step.fn] else []
      ensures Outcomes(ended) == Outcomes(old(ended)) + if old(Enabled(step)) && step.Run? then [step.outcome] else []
    {
      match step {
        case Call(fn) => if caller == Free { Enqueue(fn); }
        case Take => if worker == Idle { TakeTask(); }
        case Run(outcome) => if worker.Running? { Finish(outcome); }
        case Publish => if worker.Finished? { PublishOutcome(); }
        case Return => if caller.Waiting? { var done, outcome := WakeUp(); }
      }
      if old(Enabled(step)) && step.Run? {
        OutcomesMore(old(ended), ended[|old(ended)|]);
      }
    }

    /** Functions end in the order of the calls, and so they are reported. */
    lemma InOrder()
      requires Valid()
      ensures |returned| <= |ended| <= |called| <= |returned| + 1
      ensures forall i :: 0 <= i < |ended| ==> ended[i].0 == called[i]
      ensures forall i :: 0 <= i < |returned| ==> returned[i] == ended[i]
    {
    }

    /** In every interleaving each function called runs once, in the order of the calls, and each call
        returns how its own function ended.  `taken` says which steps could be taken: the functions called
        are those of its calls, and how they ended is what its `Run` steps say, in that order. */
    method Interleave(steps: seq<Step>) returns (taken: seq<bool>)
      requires Valid()
      modifies this
      ensures Valid() && |taken| == |steps|
      ensures called == old(called) + Calls(steps, taken)
      ensures Outcomes(ended) == Outcomes(old(ended)) + Ends(steps, taken)
      ensures |returned| <= |ended| <= |called| <= |returned| + 1
      ensures forall i :: 0 <= i < |ended| ==> ended[i].0 == called[i]
      ensures forall i :: 0 <= i < |returned| ==> returned[i] == ended[i]
    {
      hide Valid, Taken, Enabled, Calls, Ends, Outcomes;
      taken := [];
      Nothing(steps);
      for n := 0 to |steps|
        invariant Valid() && |taken| == n
        invariant called == old(called) + Calls(steps[..n], taken)
        invariant Outcomes(ended) == Outcomes(old(ended)) + Ends(steps[..n], taken)
      {
        var enabled := Enabled(steps[n]);
        TakenOne(steps, taken, enabled);
        Do(steps[n]);
        taken := taken + [enabled];
      }
      assert steps[..|steps|] == steps;
      InOrder();
    }
  }

  /** The functions handed over by the steps taken. */
  ghost function Calls(steps: seq<Step>, taken: seq<bool>): seq<nat>
    requires |taken| == |steps|
  {
    if steps == [] then []
    else
      var n := |steps| - 1;
      Calls(steps[..n], taken[..n]) + if taken[n] && steps[n].Call? then [steps[n].fn] else []
  }

  /** How functions end in the steps taken. */
  ghost function Ends(steps: seq<Step>, taken: seq<bool>): seq<Outcome>
    requires |taken| == |steps|
  {
    if steps == [] then []
    else
      var n := |steps| - 1;
      Ends(steps[..n], taken[..n]) + if taken[n] && steps[n].Run? then [steps[n].outcome] else []
  }

  ghost function Outcomes(ended: seq<(nat, Outcome)>): seq<Outcome> {
    seq(|ended|, i requires 0 <= i < |ended| => ended[i].1)
  }

  lemma OutcomesMore(ended: seq<(nat, Outcome)>, e: (nat, Outcome))
    ensures Outcomes(ended + [e]) == Outcomes(ended) + [e.1]
  {
  }

  lemma Nothing(steps: seq<Step>)
    ensures Calls(steps[..0], []) == [] && Ends(steps[..0], []) == []
  {
  }

  lemma TakenOne(steps: seq<Step>, taken: seq<bool>, more: bool)
    requires |taken| < |steps|
    ensures var n := |taken|; var step := steps[n];
      && Calls(steps[..n + 1], taken + [more])
        == Calls(steps[..n], taken) + (if more && step.Call? then [step.fn] else [])
      && Ends(steps[..n + 1], taken + [more])
        == Ends(steps[..n], taken) + (if more && step.Run? then [step.outcome] else [])
  {
    var n := |taken|;
    assert steps[..n + 1][..n] == steps[..n] && (taken + [more])[..n] == taken;
  }
}
