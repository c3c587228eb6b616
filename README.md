# Per-thread destructor registry (`__cxa_thread_atexit`)

A Dafny model of Emscripten's thread-exit destructor registry. The registry is the
code behind `__cxa_thread_atexit`, which C++ runtimes use to destroy thread-local
objects when their thread ends. It has these parts, all in
`system/lib/pthread/cxa_thread_atexit.c`:

- **`DtorList`**: an intrusive, singly linked list of `(dtor, obj)` pairs. The model
  has it as the class `DtorList`. Ghost fields `spine` (the nodes reachable from a
  node) and `entries` (their pairs) describe the whole list. `Valid()` keeps the
  list finite and acyclic.
- **Registration (`__cxa_thread_atexit_impl`)**: the model has it as
  `Registry.CxaThreadAtexitImpl`. It makes sure the key exists, reads the calling
  thread's list head, allocates a node that points to the old head, and stores the
  node as the new head. This is a push to the front. It always returns 0.
- **Drain (`run_dtors`)**: the model has it as `Registry.RunDtors`, a `while` loop
  over the list. For each node it reads `next`, calls `dtor(obj)`, and frees the node.
- **One-time key creation (`ensure_key`)**: the model has it as `Registry.EnsureKey`.
  It is modelled sequentially. `KeyState` and `EnsureKeyStep` give its effect as a
  value.

`Registry` holds the process-wide state:

- `keyCreated`: the `key_created` flag.
- `keyCreations`: a ghost count of calls to `pthread_key_create`.
- `slots`: each thread's thread-local value, a map from thread id to list head.
- `live`: a ghost set of nodes that have been allocated and not yet freed.
- `events`: a ghost trace of what drains did. `Invoked(Call(dtor, obj))` is a
  destructor call and `Freed(node)` is a `free`.

The registry invariant `Valid()` says three things. The key is created once if
at all. Every thread's list is valid and made of live nodes. No node is on the
lists of two threads.

Destructors are opaque: calling one only appends an `Invoked` event. `malloc` is
the allocation of a fresh `DtorList` that joins `live`. `free` takes the node out
of `live` and appends a `Freed` event. Inside `RunDtors`, every read of a node is
preceded by a verified check that the node is still in `live`.

Value-level functions state the properties, and lemmas prove them:

- `DrainEvents` is the event trace of draining a list: for each node in head-to-tail
  order, `Invoked` and then `Freed`.
- `Registered` is the list after a sequence of push-front registrations.

`RegisterEach` and `RegisterThenDrain` combine registration and drain. They show
the LIFO order end to end.

Two behaviours of the code are easy to misread:

- **Allocation failure is not a recoverable error.** A failed `malloc` reaches
  `assert(head)` (line 62), and the function returns 0 on every path (line 67).
  The model has no failure path: allocation always succeeds and the result is
  always 0.
- **The drain loop does not pick up entries that a destructor registers.**
  `run_dtors` saves `head->next` before each call (line 35) and never reads the
  thread slot again. A new registration goes into the thread slot through
  `pthread_setspecific`, not into the list being walked. Whether it runs later
  depends on the POSIX thread-local storage machinery, which is not part of this
  model.

## Model

| member | source | states |
|---|---|---|
| `CxaThreadAtexit.DtorList.constructor` | system/lib/pthread/cxa_thread_atexit.c:61-65 | the new node holds `dtor`, `obj` and `next` as given. Its list is the new pair in front of the old list, and it is valid. |
| `CxaThreadAtexit.SpineDistinct` | system/lib/pthread/cxa_thread_atexit.c:25-29 | no node appears twice on a valid list, so following `next` never comes back to a node (the list is acyclic). |
| `CxaThreadAtexit.ListLinkAt` | system/lib/pthread/cxa_thread_atexit.c:34-36 | on a valid list, node `k` holds pair `k`. Its `next` is node `k + 1`, or null after the last node. |
| `CxaThreadAtexit.DrainEvents` | system/lib/pthread/cxa_thread_atexit.c:31-39 | draining `n` nodes produces exactly `2n` events. |
| `CxaThreadAtexit.DrainEventsAt` | system/lib/pthread/cxa_thread_atexit.c:34-37 | node `k`'s destructor runs at step `2k` with that node's own `obj`, and node `k` is freed at step `2k + 1`. So the order is head to tail, and each node is freed right after its own callback. |
| `CxaThreadAtexit.InvocationsOfDrain` | system/lib/pthread/cxa_thread_atexit.c:31-39 | the call trace of a drain equals the list's `(dtor, obj)` pairs, head first. Each destructor runs once, with its own object. |
| `CxaThreadAtexit.DrainFreesEachOnce` | system/lib/pthread/cxa_thread_atexit.c:35-37 | on a list without repeated nodes, node `k` is freed at step `2k + 1` and at no other step, and only nodes of the list are freed. |
| `CxaThreadAtexit.NodesHasExactlyTheNodes` | system/lib/pthread/cxa_thread_atexit.c:37 | the set of nodes a drain frees holds exactly the nodes of the list, in both directions. |
| `CxaThreadAtexit.RegisteredAt` | system/lib/pthread/cxa_thread_atexit.c:60-66 | after a sequence of push-front registrations, position `k` of the list holds the `k`-th most recent registration (LIFO). The older list follows unchanged and in the same order. |
| `CxaThreadAtexit.EnsureKeyStep` | system/lib/pthread/cxa_thread_atexit.c:48-53 | afterwards the key exists. If it already existed, nothing changes. Otherwise it is created exactly once. |
| `CxaThreadAtexit.EnsureKeyIdempotent` | system/lib/pthread/cxa_thread_atexit.c:45-56 | any positive number of sequential `ensure_key` calls has the effect of one call, so the key is created at most once. |
| `CxaThreadAtexit.Registry.constructor` | system/lib/pthread/cxa_thread_atexit.c:41-43 | at start `key_created` is false, no key has been created, every thread slot is empty, nothing is allocated and nothing has run. |
| `CxaThreadAtexit.Registry.EnsureKey` | system/lib/pthread/cxa_thread_atexit.c:45-56 | the new key state is `EnsureKeyStep` of the old one: the flag is set, the key is created only if the flag was clear, and nothing else changes. The registry invariant, that the key is created once if at all, is kept. |
| `CxaThreadAtexit.Registry.CxaThreadAtexitImpl` | system/lib/pthread/cxa_thread_atexit.c:58-68 | returns 0. The thread's head is a fresh node whose `next` is the old head. The thread's list becomes `[(dtor, obj)] + old list`. Its spine is the new node in front of the old spine. Other threads' heads are unchanged, the new node is added to `live`, nothing runs, and the registry invariant (including disjointness between threads) is kept. `dsoSymbol` does not appear in any postcondition. |
| `CxaThreadAtexit.Registry.RunDtors` | system/lib/pthread/cxa_thread_atexit.c:31-39 | the trace grows by `DrainEvents` of the list. Exactly the list's nodes leave `live`. A null list makes no calls and frees nothing. Only `events` and `live` change. |
| `CxaThreadAtexit.Registry.RegisterEach` | system/lib/pthread/cxa_thread_atexit.c:58-68 | registering a sequence on an empty slot leaves `Registered([], calls)` as the thread's list. Each pair is in a freshly allocated node that was not live before, and `live` grows by exactly the new list's nodes. Other threads' heads are unchanged. The key state is that of `|calls|` sequential `ensure_key` calls, which by `EnsureKeyIdempotent` is at most one creation. The registry invariant is kept. |
| `CxaThreadAtexit.Registry.RegisterThenDrain` | system/lib/pthread/cxa_thread_atexit.c:31-68 | registering `(d1,o1)…(dn,on)` on an empty slot and then draining makes the call trace `(dn,on)…(d1,o1)`. Every node allocated is freed again. Other threads' heads are unchanged, and the key state is that of `|calls|` sequential `ensure_key` calls. |
| `CxaThreadAtexit.Registry.PushKeepsSlotsValid` | system/lib/pthread/cxa_thread_atexit.c:61-66 | storing as a thread's head a node that is not live and points to that thread's old head keeps every list valid and live, and keeps every node on the list of at most one thread. |

## Left out

- The double-checked locking itself is not modelled: the mutex, the atomic
  acquire and release on `key_created`, and races between threads on first use
  (lines 42-55). `EnsureKey` keeps both tests of the flag but runs them as
  sequential code.
- The POSIX thread-local storage facility is a foreign library and is not
  modelled. This covers the `key` value that `pthread_key_create` returns, how it
  binds `run_dtors`, when it calls `run_dtors` at thread exit, nulling the value
  first, and the re-runs up to `PTHREAD_DESTRUCTOR_ITERATIONS`.
  `pthread_getspecific` and `pthread_setspecific` are the map `slots`.
- The source ignores the results of `pthread_key_create` (line 51) and of
  `pthread_setspecific` (line 66). If key creation fails, `key_created` is still
  set (line 52), so creation is never retried. If the store fails, the function
  still returns 0 and the new node leaks. The model assumes both calls succeed:
  `EnsureKey` always yields a usable key, and `CxaThreadAtexitImpl` always
  stores the new head.
- Registry.RegisterThenDrain: passes the thread's head straight to `RunDtors` in
  place of the thread-exit machinery. It does not clear the slot afterwards, so
  it does not promise `Valid()` afterwards.
- Destructor bodies are opaque (line 36). A call is only a trace event. It has no
  effect on the registry, makes no reentrant registration and cannot abort the
  drain part way through.
- Real `malloc`, `free` and the `assert` abort on allocation failure (lines 37,
  61-62) are not modelled. Allocation is `new` and always succeeds; `free` is
  leaving the ghost set `live`.
- `weak_alias` (line 70) and the header includes are build and link plumbing.
- Isolation between threads is modelled as keying `slots` by thread id and
  keeping the threads' lists node-disjoint. Which thread is running, and so which
  slot `pthread_getspecific` reads, is the `tid` parameter.
- Function pointers, `void*` objects and thread ids are natural numbers (`Dtor`,
  `Ptr`, `Tid`). Only their identity matters here.
