# Halide runtime: sequential fallback task dispatcher

A Dafny model of `src/runtime/fake_thread_pool.cpp`, the task dispatcher that
the Halide runtime uses when no real thread pool is linked in. Generated
pipeline code runs work through two entry points:

- `halide_do_task(f, idx, closure)` runs one task index;
- `halide_do_par_for(f, min, size, closure)` runs the indices
  `min .. min+size-1`.

A host can install an override for each entry point
(`halide_set_custom_do_task`, `halide_set_custom_do_par_for`). Without a range
override, the range is walked in ascending order on the calling thread, each
index goes through `halide_do_task` (so a task override still applies), and the
first non-zero status stops the walk and is returned.

Layout:

- `wrappers.dfy`: module `Wrappers`, the `Option` type that stands for a
  nullable function pointer.
- `fake_thread_pool.dfy`: module `FakeThreadPool`.
  - C `int` is the newtype `int32`.
  - A task kernel is a total function `(int32, Closure) -> int32`.
  - The closure is an opaque `Closure` token that is only forwarded.
  - The two weak global slots are the fields of class `Runtime`. The setters
    are methods that overwrite one field.
  - `halide_do_task` is the pure function `DoTask`. The value of the task slot
    it reads is passed to it as its first argument.
  - `halide_do_par_for` is the method `Runtime.DoParFor`. Its loop returns,
    as a ghost out-parameter, the trace of indices handed to `DoTask`. It is
    proved equal to the recursive specification `DefaultParFor`. The lemmas
    below characterise `DefaultParFor`.

## Model

| member | source | states |
|---|---|---|
| `FakeThreadPool.Runtime.constructor` | src/runtime/fake_thread_pool.cpp:10 | both override slots start empty: the null globals at process start, the task slot declared at line 10 and the par-for slot at line 15 |
| `FakeThreadPool.Runtime.SetCustomDoTask` | src/runtime/fake_thread_pool.cpp:11-13 | the task slot holds exactly the new value, replacing any earlier registration; the par-for slot is unchanged |
| `FakeThreadPool.Runtime.SetCustomDoParFor` | src/runtime/fake_thread_pool.cpp:16-18 | the par-for slot holds exactly the new value, so the last registration wins; the task slot is unchanged |
| `FakeThreadPool.DoTask` | src/runtime/fake_thread_pool.cpp:20-26 | with no task override the result is the task's own status `f(idx, closure)`; with an override `h` it is `h(f, idx, closure)`, passed back untransformed |
| `FakeThreadPool.Indices` | src/runtime/fake_thread_pool.cpp:33 | the range walked by the loop has `max(0, size)` indices, the i-th being `min + i`: ascending, consecutive, empty when `size <= 0` |
| `FakeThreadPool.Runtime.DoParFor` | src/runtime/fake_thread_pool.cpp:28-40 | with a par-for override `g` the result is `g(f, min, size, closure)` and no index is dispatched; otherwise the status and the dispatched indices are exactly those of the sequential strategy `DefaultParFor` over `[min, min+size)` |
| `FakeThreadPool.DefaultParFor` | src/runtime/fake_thread_pool.cpp:33-39 | the sequential default strategy; its own contract says that the dispatched indices are a prefix of the range `min, min+1, ..., min+size-1`, so they ascend and no index is dispatched twice; it is characterised by `TraceShape`, `AllSucceed`, `FailFast`, `EmptyRange`, `SucceedsIffAllSucceed` and `TaskHookComposes` |
| `FakeThreadPool.TraceShape` | src/runtime/fake_thread_pool.cpp:33-39 | the dispatched indices are a prefix of the range starting at `min` and ascending by one; a zero result means the whole range was dispatched; a non-zero result is the status of the last index dispatched |
| `FakeThreadPool.AllSucceed` | src/runtime/fake_thread_pool.cpp:33-39 | when every index's status is 0, every index of the range is dispatched exactly once in ascending order and the result is 0 |
| `FakeThreadPool.FailFast` | src/runtime/fake_thread_pool.cpp:33-37 | when `k` is the first index with a non-zero status, the result is that status and exactly `min..k` are dispatched; nothing above `k` is |
| `FakeThreadPool.EmptyRange` | src/runtime/fake_thread_pool.cpp:33-39 | an empty or negative range dispatches nothing and returns 0 |
| `FakeThreadPool.SucceedsIffAllSucceed` | src/runtime/fake_thread_pool.cpp:33-39 | the default strategy returns 0 if and only if every index in the range has status 0 |
| `FakeThreadPool.TaskHookComposes` | src/runtime/fake_thread_pool.cpp:34 | with only a task override `h` installed, the default range loop behaves exactly as if it ran the task `(x, c) => h(f, x, c)` with no override: each index's status is `h(f, x, closure)` rather than `f(x, closure)` |

## Left out

- `halide_shutdown_thread_pool` (src/runtime/fake_thread_pool.cpp:7-8) has an empty body, so there is nothing to model.
- Weak linkage and link-time symbol interposition are not modelled. The two overridable slots are explicit fields of `Runtime`, and the other entry points are not replaceable in the model.
- Concurrency is not modelled. Registration is assumed to happen before dispatch, and slot writes have no visibility or ordering semantics across threads.
- `FakeThreadPool.Runtime.DoParFor` requires, on the default path only (no par-for override), that `min + size` fits in a 32-bit `int`. The loop bound at src/runtime/fake_thread_pool.cpp:33 would overflow otherwise, which is undefined behaviour in C, so it is excluded rather than modelled as wrap-around. With a par-for override the source never evaluates `min + size` and the model places no such requirement.
- Task kernels and installed overrides are given as total pure functions. Their side effects, their internal behaviour and any re-entrant calls into the dispatcher are not modelled.
- `FakeThreadPool.DoTask` is a pure function, so a direct call of `f` is not an observable event. The model therefore shows "with an override, the dispatcher does not call `f` itself" only as the result being `h(f, idx, closure)`, and, for ranges, as the empty trace of an overridden `DoParFor`.
- The contents of the closure are not modelled. It is an opaque address that is forwarded unchanged.
