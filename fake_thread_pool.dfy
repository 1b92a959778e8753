/**
 * The sequential fallback task dispatcher of the Halide runtime.
 *
 * Generated pipeline code hands work to two entry points: `DoTask` runs one
 * task index, `Runtime.DoParFor` runs a contiguous range of indices. A host
 * may install an override for either entry point; without one, a range is
 * walked in ascending order on the calling thread and the first non-zero
 * status aborts the walk.
 */
module FakeThreadPool {
  import opened Wrappers

  const INT32_MIN: int := -0x8000_0000
  const INT32_MAX: int := 0x7fff_ffff

  /** The C `int` used for indices, sizes and status codes. */
  newtype int32 = x: int | INT32_MIN <= x <= INT32_MAX

  /** The caller-owned `uint8_t *closure`: an address that is only forwarded. */
  datatype Closure = Closure(address: nat)

  /** A generated task kernel: `int (*)(int, uint8_t *)`. */
  type TaskFn = (int32, Closure) -> int32

  /** A single-task override: receives the task, the index and the closure. */
  type TaskHook = (TaskFn, int32, Closure) -> int32

  /** A range override: receives the task, `min`, `size` and the closure. */
  type ParForHook = (TaskFn, int32, int32, Closure) -> int32

  /** The outcome of the default range strategy: the status it returns and,
      in order, every index it handed to `DoTask`. */
  datatype Run = Run(status: int32, trace: seq<int32>)

  /** The indices `lo, lo+1, ..., hi-1`; empty when `hi <= lo`. */
  function Indices(lo: int32, hi: int32): (r: seq<int32>)
    ensures |r| == if lo < hi then hi as int - lo as int else 0
    ensures forall i :: 0 <= i < |r| ==> r[i] as int == lo as int + i
    decreases hi as int - lo as int
  {
    if lo < hi then [lo] + Indices(lo + 1, hi) else []
  }

  /** Extending the range by one index appends that index. */
  lemma IndicesExtend(lo: int32, hi: int32)
    requires lo <= hi < INT32_MAX as int32
    ensures Indices(lo, hi + 1) == Indices(lo, hi) + [hi]
  {
  }

  /**
   * `halide_do_task`: with a task override installed the call is delegated to
   * it; otherwise the task itself runs. The status comes back unchanged.
   */
  function DoTask(taskSlot: Option<TaskHook>, f: TaskFn, idx: int32, closure: Closure): (r: int32)
    ensures taskSlot.None? ==> r == f(idx, closure)
    ensures taskSlot.Some? ==> r == taskSlot.value(f, idx, closure)
  {
    match taskSlot
    case Some(hook) => hook(f, idx, closure)
    case None => f(idx, closure)
  }

  /**
   * The default strategy of `halide_do_par_for` over the indices
   * `x, x+1, ..., end-1`: each index goes through `DoTask`, and the first
   * non-zero status ends the walk. The trace is a prefix of the range, so
   * no index is dispatched twice; the lemmas below characterise it
   * completely.
   */
  function DefaultParFor(taskSlot: Option<TaskHook>, f: TaskFn, x: int32, end: int32, closure: Closure): (run: Run)
    ensures run.trace <= Indices(x, end)
    decreases end as int - x as int
  {
    if x < end then
      var status := DoTask(taskSlot, f, x, closure);
      if status != 0 then
        Run(status, [x])
      else
        var rest := DefaultParFor(taskSlot, f, x + 1, end, closure);
        Run(rest.status, [x] + rest.trace)
    else
      Run(0, [])
  }

  /** The trace is always a prefix of the range, so it starts at `x` and
      ascends strictly, one index at a time. A successful run visited the
      whole range; a failed run's last index is the one whose status it
      returns. */
  lemma {:induction false} TraceShape(taskSlot: Option<TaskHook>, f: TaskFn, x: int32, end: int32, closure: Closure)
    ensures var run := DefaultParFor(taskSlot, f, x, end, closure);
      && run.trace <= Indices(x, end)
      && (forall i :: 0 <= i < |run.trace| ==> run.trace[i] as int == x as int + i)
      && (run.status == 0 ==> run.trace == Indices(x, end))
      && (run.status != 0 ==>
            |run.trace| > 0 && DoTask(taskSlot, f, run.trace[|run.trace| - 1], closure) == run.status)
    decreases end as int - x as int
  {
    if x < end {
      TraceShape(taskSlot, f, x + 1, end, closure);
    }
  }

  /** Every index succeeds: the whole range is visited in ascending order and
      the result is 0. */
  lemma {:induction false} AllSucceed(taskSlot: Option<TaskHook>, f: TaskFn, x: int32, end: int32, closure: Closure)
    requires forall y: int32 :: x <= y < end ==> DoTask(taskSlot, f, y, closure) == 0
    ensures DefaultParFor(taskSlot, f, x, end, closure) == Run(0, Indices(x, end))
    decreases end as int - x as int
  {
    if x < end {
      AllSucceed(taskSlot, f, x + 1, end, closure);
    }
  }

  /** Fail-fast: when `k` is the first index whose status is non-zero, that
      status is returned and exactly `x..k` were dispatched. */
  lemma {:induction false} FailFast(taskSlot: Option<TaskHook>, f: TaskFn, x: int32, end: int32, closure: Closure, k: int32)
    requires x <= k < end
    requires DoTask(taskSlot, f, k, closure) != 0
    requires forall y: int32 :: x <= y < k ==> DoTask(taskSlot, f, y, closure) == 0
    ensures DefaultParFor(taskSlot, f, x, end, closure) == Run(DoTask(taskSlot, f, k, closure), Indices(x, k + 1))
    decreases k as int - x as int
  {
    if x < k {
      FailFast(taskSlot, f, x + 1, end, closure, k);
    }
  }

  /** An empty or negative range dispatches nothing and returns 0. */
  lemma EmptyRange(taskSlot: Option<TaskHook>, f: TaskFn, x: int32, end: int32, closure: Closure)
    requires end <= x
    ensures DefaultParFor(taskSlot, f, x, end, closure) == Run(0, [])
  {
  }

  /** The default strategy returns 0 exactly when every index of the range
      succeeds. */
  lemma {:induction false} SucceedsIffAllSucceed(taskSlot: Option<TaskHook>, f: TaskFn, x: int32, end: int32, closure: Closure)
    ensures DefaultParFor(taskSlot, f, x, end, closure).status == 0
        <==> forall y: int32 :: x <= y < end ==> DoTask(taskSlot, f, y, closure) == 0
    decreases end as int - x as int
  {
    if x < end {
      SucceedsIffAllSucceed(taskSlot, f, x + 1, end, closure);
    }
  }

  /** The task that a task override `hook` effectively runs for `f`. */
  function Hooked(hook: TaskHook, f: TaskFn): TaskFn {
    (idx, closure) => hook(f, idx, closure)
  }

  /** The two hooks compose: with only a task override installed, the default
      range loop behaves as if it ran the task `hook(f, ., .)` directly. */
  lemma {:induction false} TaskHookComposes(hook: TaskHook, f: TaskFn, x: int32, end: int32, closure: Closure)
    ensures DefaultParFor(Some(hook), f, x, end, closure) == DefaultParFor(None, Hooked(hook, f), x, end, closure)
    decreases end as int - x as int
  {
    if x < end {
      assert DoTask(Some(hook), f, x, closure) == DoTask(None, Hooked(hook, f), x, closure);
      TaskHookComposes(hook, f, x + 1, end, closure);
    }
  }

  /**
   * The process-wide override slots (`halide_custom_do_task` and
   * `halide_custom_do_par_for`), which start out null.
   */
  class Runtime {
    var customDoTask: Option<TaskHook>
    var customDoParFor: Option<ParForHook>

    constructor ()
      ensures customDoTask == None && customDoParFor == None
    {
      customDoTask := None;
      customDoParFor := None;
    }

    /** `halide_set_custom_do_task`: the last registration wins. */
    method SetCustomDoTask(f: Option<TaskHook>)
      modifies this
      ensures customDoTask == f
      ensures customDoParFor == old(customDoParFor)
    {
      customDoTask := f;
    }

    /** `halide_set_custom_do_par_for`: the last registration wins. */
    method SetCustomDoParFor(f: Option<ParForHook>)
      modifies this
      ensures customDoParFor == f
      ensures customDoTask == old(customDoTask)
    {
      customDoParFor := f;
    }

    /**
     * `halide_do_par_for`. With a range override the call is delegated to it
     * and no index is dispatched here; otherwise `x` walks from `min` up to
     * `min + size - 1`, dispatching through `DoTask` and returning the first
     * non-zero status. `trace` lists the indices handed to `DoTask`.
     */
    method DoParFor(f: TaskFn, min: int32, size: int32, closure: Closure) returns (r: int32, ghost trace: seq<int32>)
      requires customDoParFor.None? ==> INT32_MIN <= min as int + size as int <= INT32_MAX
      ensures customDoParFor.Some? ==> r == customDoParFor.value(f, min, size, closure) && trace == []
      ensures customDoParFor.None? ==>
        r == DefaultParFor(customDoTask, f, min, (min as int + size as int) as int32, closure).status
      ensures customDoParFor.None? ==>
        trace == DefaultParFor(customDoTask, f, min, (min as int + size as int) as int32, closure).trace
    {
      if customDoParFor.Some? {
        r := customDoParFor.value(f, min, size, closure);
        trace := [];
        return;
      }
      var taskSlot := customDoTask;
      var end := (min as int + size as int) as int32;
      var x := min;
      trace := [];
      while x < end
        invariant min <= x && (x <= end || x == min)
        invariant trace == Indices(min, x)
        invariant forall y: int32 :: min <= y < x ==> DoTask(taskSlot, f, y, closure) == 0
        decreases end as int - x as int
      {
        var result := DoTask(taskSlot, f, x, closure);
        assert trace + [x] == Indices(min, x + 1) by { IndicesExtend(min, x); }
        trace := trace + [x];
        if result != 0 {
          r := result;
          assert Run(r, trace) == DefaultParFor(taskSlot, f, min, end, closure) by {
            FailFast(taskSlot, f, min, end, closure, x);
          }
          return;
        }
        x := x + 1;
      }
      r := 0;
      assert Run(r, trace) == DefaultParFor(taskSlot, f, min, end, closure) by {
        AllSucceed(taskSlot, f, min, end, closure);
      }
    }
  }
}
