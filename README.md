# Dispatcher graph construction

This project models how the task scheduler in `src/dispatch.rs` builds its
dependency graph, and proves properties of that model. A `DispatcherBuilder`
registers tasks one at a time with `add`:

- each task gets a name, a list of dependency names and a resource footprint
  (the resource ids it reads and the ones it writes);
- each task receives the next dense id;
- its dependency names are resolved through the name map, and `add` panics on
  the first unknown name;
- the new id is appended to the `dependents` list of every dependency;
- the footprint and the resolved ids are recorded in the resource registry
  (`Dependencies`), which also keeps reverse indices from each resource to the
  tasks that read it and, apart, to the tasks that write it;
- the name is bound to the new id;
- a task without dependencies joins the initial ready set.

`with_pool` attaches a caller-supplied thread pool. `finish` moves the graph
into a `Dispatcher` whose running bitset has one clear bit per task.

Files:

- `wrappers.dfy`: `Option` and `Result`.
- `indexing.dfy`: the reference definition of an inverse index.
  `Occurrences(rows, x)` is the ids of the rows that mention `x`, in row order,
  once per mention; both indices are proved equal to it. `Repeat` and `Lookup`
  are helpers.
- `registry.dfy`: class `Dependencies`, with `Add` and its two in-place
  hash-map loops (`PushAll`). It proves that both reverse indices stay equal
  to `Occurrences` of the read sets and write sets.
- `graph.dfy`: backward edges, paths, and the roots of a dependency table.
  It proves that backward edges rule out cycles.
- `dispatch.dfy`: the classes `DispatcherBuilder` and `Dispatcher`, the name
  resolution, and the builder invariant. The invariant says:
  - ids are dense;
  - edges point backwards;
  - `dependents` is the inverse of `dependencies`;
  - `ready` is the set of roots;
  - the name map holds every name's latest registration.

Rust's consuming builder (`fn add(mut self, …) -> Self`) is modelled as a
method that updates the builder in place. Resource ids are a type parameter
compared only for equality. A task is an opaque type parameter. A thread pool
is an opaque handle.

The builder's ghost field `registered` records the name given to each `add`, in
order. It exists only to state what the name map holds.

`TaskInfo.dependents` is a `Vec`, so a dependency named twice in one `add`
receives the new id twice. The model keeps that multiplicity
(`Repeat(id, multiset(ds)[j])`).

## Model

| member | source | states |
|---|---|---|
| Registry.Dependencies.constructor | src/dispatch.rs:9-16 | the derived `Default` registry is empty: no rows, empty reverse indices; it satisfies the registry invariant |
| Registry.Dependencies.Copy | src/dispatch.rs:143-147 | the registry `finish` moves into the dispatcher, as a separate object: the same rows and reverse indices, and still valid |
| Registry.Dependencies.PushAll | src/dispatch.rs:24-36 | the `entry(r).or_insert(Vec::new()).push(id)` loop yields `PushedAll(m, keys, id)`: each resource's list gains id once per occurrence of that resource in keys, in order, and a resource becomes a key exactly when it was one already or occurs in keys |
| Registry.Dependencies.Add | src/dispatch.rs:19-41 | pushes exactly one row each onto the read sets, write sets and dependency lists; both reverse indices become PushedAll of the old index; when id is the next row index, the invariant (equal lengths, both reverse indices equal to Occurrences of their rows) is preserved |
| Registry.PushedAllLookup | src/dispatch.rs:24-36 | the in-place pushes append `id` once per occurrence of r to r's list, create a list only for a resource seen for the first time, and leave every other resource's list untouched |
| Registry.ReverseIndexStep | src/dispatch.rs:24-40 | pushing the new row's resources with id = number of rows keeps the map equal to the reverse index of the extended rows, with no empty lists |
| Registry.ReverseIndexAgrees | src/dispatch.rs:12-15 | in a valid registry, i is in rev_reads[r] iff task i reads r, and i is in rev_writes[r] iff task i writes r (both directions) |
| Registry.ReverseIndexOrdered | src/dispatch.rs:24-36 | every reverse-index list is in registration order and holds only registered task ids |
| Indexing.OneMoreMention | src/dispatch.rs:24-36 | one more mention of a key among the pushed keys gives that key exactly one more copy of id (also one more `dependents.push(id)`, src/dispatch.rs:109-112) |
| Indexing.OtherMention | src/dispatch.rs:24-36 | a mention of one key leaves every other key's copies of id unchanged |
| Indexing.OccurrencesAppend | src/dispatch.rs:24-40 | appending a row appends one copy of the new row's index per mention of x |
| Indexing.OccurrencesCount | src/dispatch.rs:24-36 | index i occurs in Occurrences(rows, x) exactly as many times as row i mentions x |
| Indexing.OccurrencesMember | src/dispatch.rs:24-36 | i occurs in Occurrences(rows, x) iff i is a row index and row i mentions x |
| Indexing.OccurrencesOrdered | src/dispatch.rs:24-36 | Occurrences lists only row indices, in non-decreasing order |
| Indexing.OccurrencesAbsent | src/dispatch.rs:121-122 | a value no row mentions has no occurrences, which is why a new task starts with no dependents |
| Graph.PathDescends | src/dispatch.rs:97-115 | with edges pointing only to lower ids, every walk along dependency edges ends strictly below where it started; in a built graph the edges are backward (Dispatch.RegisterStep), so this holds for every dispatcher |
| Graph.NoCycle | src/dispatch.rs:97-115 | with backward edges, no walk of length at least two returns to its start: the dependency graph is acyclic |
| Graph.RootsAppend | src/dispatch.rs:117-119 | appending a row extends the roots by the new index exactly when the row is empty |
| Graph.RootsMember | src/dispatch.rs:117-119 | i is a root iff it is a row index with an empty dependency row; the roots are strictly increasing |
| Dispatch.Resolve | src/dispatch.rs:101-107 | name resolution succeeds iff every dependency name is in the map; on success it yields one id per name, `names[dep[k]]` in order; on failure it names the first unknown dependency |
| Dispatch.NewTaskHasNoDependents | src/dispatch.rs:109-125 | when every resolved dependency is below the new id, no row mentions the new id, so its dependents list is correctly empty |
| Dispatch.DependentsStep | src/dispatch.rs:109-112 | one iteration of the dependents loop pushes id onto exactly task d and keeps every task's executor |
| Dispatch.RegisterStep | src/dispatch.rs:109-125 | registering a task whose resolved dependencies are all earlier keeps the graph shape: dense ids, backward edges, dependents equal to the inverse of the dependency rows, and ready equal to the roots |
| Dispatch.NamesStep | src/dispatch.rs:115 | binding the name to the next id keeps every name bound to a task registered under it, and to its latest such task |
| Dispatch.DispatcherBuilder.constructor | src/dispatch.rs:82-84 | `new` yields a builder with no tasks, no names, an empty ready set and no pool; it satisfies the builder invariant |
| Dispatch.DispatcherBuilder.PushDependents | src/dispatch.rs:109-112 | the loop returns the task list in which the dependents of each task j have gained id once per mention of j in ds, and nothing else |
| Dispatch.DispatcherBuilder.Add | src/dispatch.rs:86-128 | `add` succeeds iff every dependency name is registered. On an unknown name it reports that name, the first unknown one, and changes nothing. On success: the new id is the old task count; exactly one TaskInfo is pushed, with empty dependents and the executor tagged with the id; every resolved dependency's dependents list gains the id, and every other list stays as it was; the registry gains the footprint row; the name map changes only at `name`, now bound to the id; the id joins ready iff `dep` is empty; the pool is untouched; the builder invariant is kept |
| Dispatch.DispatcherBuilder.Register | src/dispatch.rs:97-125 | the rest of `add` once all names have resolved to earlier ids: the same state changes as `add`'s success case, and it keeps the builder invariant |
| Dispatch.DispatcherBuilder.WithPool | src/dispatch.rs:130-136 | attaches the pool and changes nothing else; the invariant is kept |
| Dispatch.DispatcherBuilder.Finish | src/dispatch.rs:138-154 | the dispatcher takes over the registry (as a fresh object with the same rows and indices), ready set and tasks unchanged; its running bitset has one clear bit per task; its pool is the one given to `with_pool` if any, otherwise a newly created one; the built dispatcher satisfies the graph invariant |
| Dispatch.Dispatcher.constructor | src/dispatch.rs:46-52 | a dispatcher built from a well-formed graph and a bitset of matching size is valid and holds exactly those fields |
| Dispatch.DependentsInverse | src/dispatch.rs:109-114 | for a well-formed graph, b is in tasks[a].dependents iff b is a task whose dependency list mentions a (both directions) |
| Dispatch.DependentsLater | src/dispatch.rs:109-112 | every dependents list names only later, registered tasks, in registration order |
| Dispatch.ReadyExactlyRoots | src/dispatch.rs:117-119 | i is in ready iff i is a task with no dependencies; ready is strictly increasing |

## Left out

- `Dispatcher::dispatch` (src/dispatch.rs:57) is an empty stub. There is no scheduling to model, and no conflict-freedom or dispatch order is claimed.
- `ExecTask` and `TaskDispatch::exec` (src/dispatch.rs:164-198) spawn work on a rayon scope, fetch task data and clear running bits from worker threads. That is concurrency and foreign code. Only the executor's `(id, task)` pair is modelled, as `TaskDispatch`.
- `create_thread_pool` (src/dispatch.rs:156-161) is rayon plumbing. It prints from its panic handler and panics on an invalid configuration. `Finish` takes the pool it would create as the parameter `created`.
- The `unsafe` calls `T::TaskData::reads()` and `writes()` (src/dispatch.rs:98-99) are foreign code. Their results are the inputs `taskReads` and `taskWrites` of `Add`.
- The running bitset is a sequence of booleans of fixed size. `AtomicBitSet`'s atomic memory ordering is not modelled.
- Resource conflicts between tasks are not modelled. The code defines no conflict predicate and no implicit ordering.
- Dispatch.DispatcherBuilder.Add: the panic on an unknown dependency name becomes the outcome `NoSuchTask(name)`, with builder and registry unchanged. Unwinding is not modelled.
- Dispatch.DispatcherBuilder.Finish: Rust's `finish(self)` consumes the builder. The model leaves the builder usable, but gives the dispatcher its own copy of the registry, so a later `Add` or `WithPool` on the builder cannot change the dispatcher.
- Task ids are unbounded naturals. `usize` overflow would need more than 2^64 registrations and is not modelled.
- The FNV hash maps are Dafny maps. Hashing and iteration order are not modelled. Nothing in the core depends on them.
