/**
 * The graph-construction half of the scheduler: `DispatcherBuilder` turns
 * a sequence of task registrations into a frozen `Dispatcher`.
 *
 * A task's executor is opaque (type parameter T); resource ids are opaque
 * values compared only for equality (type parameter R); a rayon thread pool
 * is an opaque shared handle.
 */
module Dispatch {
  import opened Wrappers
  import opened Indexing
  import opened Graph
  import opened Registry

  /** A shared (reference-counted) handle on a worker pool. */
  datatype ThreadPool = ThreadPool(handle: nat)

  /** The boxed executor of one task: the task value and the id it was registered under. */
  datatype TaskDispatch<T> = TaskDispatch(id: nat, task: T)

  /** Per-task bookkeeping: the ids of later tasks that named this one as a dependency. */
  datatype TaskInfo<T> = TaskInfo(dependents: seq<nat>, exec: TaskDispatch<T>)

  /** What `add` does: registers the task under a fresh id, or panics with
      "No such task registered" on the first unknown dependency name. */
  datatype AddOutcome = Registered(id: nat) | NoSuchTask(name: string)

  /** Resolving the dependency names left to right through the name map; the
      first name that is not registered stops the resolution. */
  function Resolve(names: map<string, nat>, dep: seq<string>): (r: Result<seq<nat>, string>)
    ensures r.Success? <==> forall k :: 0 <= k < |dep| ==> dep[k] in names
    ensures r.Success? ==> |r.value| == |dep| && forall k :: 0 <= k < |dep| ==> r.value[k] == names[dep[k]]
    ensures r.Failure? ==>
      exists k :: 0 <= k < |dep| && dep[k] == r.error && dep[k] !in names && forall j :: 0 <= j < k ==> dep[j] in names
  {
    if |dep| == 0 then Success([])
    else if dep[0] !in names then Failure(dep[0])
    else
      match Resolve(names, dep[1..])
      case Success(ids) => Success([names[dep[0]]] + ids)
      case Failure(unknown) =>
        assert exists k :: 1 <= k < |dep| && dep[k] == unknown && dep[k] !in names && forall j :: 0 <= j < k ==> dep[j] in names by {
          var k :| 0 <= k < |dep[1..]| && dep[1..][k] == unknown && dep[1..][k] !in names
                   && forall j :: 0 <= j < k ==> dep[1..][j] in names;
          assert forall j :: 0 <= j < k + 1 ==> dep[j] in names by {
            forall j | 0 <= j < k + 1 ensures dep[j] in names {
              if j > 0 { assert dep[j] == dep[1..][j - 1]; }
            }
          }
        }
        Failure(unknown)
  }

  /** The shape of the graph: dense ids, backward edges, `dependents` as the inverse
      of `dependencies`, and the ready set as the tasks without dependencies. */
  ghost predicate GraphShape<T>(deps: seq<seq<nat>>, tasks: seq<TaskInfo<T>>, ready: seq<nat>)
  {
    && |deps| == |tasks|
    && (forall i: nat :: i < |tasks| ==> tasks[i].exec.id == i)
    && BackwardEdges(deps)
    && (forall j: nat :: j < |tasks| ==> tasks[j].dependents == Occurrences(deps, j))
    && ready == Roots(deps)
  }

  /** The invariant the builder keeps and the dispatcher inherits. */
  ghost predicate WellFormed<R(!new), T>(registry: Dependencies<R>, tasks: seq<TaskInfo<T>>, ready: seq<nat>)
    reads registry
  {
    registry.Valid() && GraphShape(registry.dependencies, tasks, ready)
  }

  /** `after` is `before` with `id` pushed onto the dependents of each task in ds, once per mention. */
  ghost predicate PushedDependents<T>(before: seq<TaskInfo<T>>, after: seq<TaskInfo<T>>, ds: seq<nat>, id: nat)
  {
    && |after| == |before|
    && forall j: nat :: j < |before| ==>
         && after[j].exec == before[j].exec
         && after[j].dependents == before[j].dependents + Repeat(id, multiset(ds)[j])
  }

  /** Each name is bound to a task registered under it, and to the latest such task. */
  ghost predicate NamesBound(names: map<string, nat>, registered: seq<string>)
  {
    && (forall n :: n in names ==> names[n] < |registered| && registered[names[n]] == n)
    && (forall i :: 0 <= i < |registered| ==> registered[i] in names && i <= names[registered[i]])
  }

  /** Ids ds, all below id, leave no mention of id anywhere: the new task starts with no dependents. */
  lemma NewTaskHasNoDependents(deps: seq<seq<nat>>, ds: seq<nat>, id: nat)
    requires id == |deps| && BackwardEdges(deps)
    requires forall k :: 0 <= k < |ds| ==> ds[k] < id
    ensures Occurrences(deps + [ds], id) == []
  {
    OccurrencesAppend(deps, ds, id);
    forall i | 0 <= i < id ensures id !in deps[i] {
      assert forall k :: 0 <= k < |deps[i]| ==> deps[i][k] < i;
    }
    OccurrencesAbsent(deps, id);
    assert id !in multiset(ds);
  }

  /** One step of the `dependents` loop: pushing id onto task d. */
  lemma DependentsStep<T>(tasks: seq<TaskInfo<T>>, updated: seq<TaskInfo<T>>, prefix: seq<nat>, d: nat, id: nat)
    requires PushedDependents(tasks, updated, prefix, id) && d < |updated|
    ensures PushedDependents(tasks, updated[d := updated[d].(dependents := updated[d].dependents + [id])], prefix + [d], id)
  {
    var next := updated[d := updated[d].(dependents := updated[d].dependents + [id])];
    forall j: nat | j < |tasks|
      ensures next[j].dependents == tasks[j].dependents + Repeat(id, multiset(prefix + [d])[j])
    {
      if j == d {
        OneMoreMention(prefix, d, id);
      } else {
        OtherMention(prefix, d, id, j);
      }
    }
  }

  /** Registering one task whose resolved dependencies ds are all earlier keeps the graph's shape. */
  lemma RegisterStep<T>(deps: seq<seq<nat>>, tasks: seq<TaskInfo<T>>, ready: seq<nat>,
                        ds: seq<nat>, updated: seq<TaskInfo<T>>, task: T, id: nat,
                        deps': seq<seq<nat>>, tasks': seq<TaskInfo<T>>, ready': seq<nat>)
    requires GraphShape(deps, tasks, ready) && id == |deps|
    requires forall k :: 0 <= k < |ds| ==> ds[k] < id
    requires PushedDependents(tasks, updated, ds, id)
    requires deps' == deps + [ds] && tasks' == updated + [TaskInfo([], TaskDispatch(id, task))]
    requires ready' == if |ds| == 0 then ready + [id] else ready
    ensures GraphShape(deps', tasks', ready')
  {
    forall j: nat | j < id + 1
      ensures tasks'[j].dependents == Occurrences(deps', j)
    {
      if j < id {
        assert tasks'[j] == updated[j];
        assert updated[j].dependents == tasks[j].dependents + Repeat(id, multiset(ds)[j]);
        assert tasks[j].dependents == Occurrences(deps, j);
        OccurrencesAppend(deps, ds, j);
        assert tasks'[j].dependents == Occurrences(deps', j);
      } else {
        assert tasks'[j].dependents == [];
        NewTaskHasNoDependents(deps, ds, id);
        assert tasks'[j].dependents == Occurrences(deps', j);
      }
    }
    assert BackwardEdges(deps') by {
      forall i, k | 0 <= i < |deps'| && 0 <= k < |deps'[i]| ensures deps'[i][k] < i {
        if i < id {
          assert deps'[i] == deps[i];
        }
      }
    }
    RootsAppend(deps, ds);
  }

  /** Binding a name to the next id keeps every name on its latest registration. */
  lemma NamesStep(names: map<string, nat>, registered: seq<string>, name: string, id: nat,
                  names': map<string, nat>, registered': seq<string>)
    requires NamesBound(names, registered) && id == |registered|
    requires names' == names[name := id] && registered' == registered + [name]
    ensures NamesBound(names', registered')
  {
  }

  /** The builder: tasks registered so far, their footprints, the name map and the ready set. */
  class DispatcherBuilder<R(==, !new), T> {
    const registry: Dependencies<R>
    var ready: seq<nat>
    var names: map<string, nat>
    var tasks: seq<TaskInfo<T>>
    var threadPool: Option<ThreadPool>
    /** The name given to each `add`, in order (a name registered twice is bound to its latest id). */
    ghost var registered: seq<string>

    ghost predicate Valid()
      reads this, registry
    {
      && WellFormed(registry, tasks, ready)
      && |registered| == |tasks|
      && NamesBound(names, registered)
    }

    /** `DispatcherBuilder::new`: no tasks, no pool. */
    constructor ()
      ensures Valid() && fresh(registry)
      ensures tasks == [] && ready == [] && names == map[] && threadPool == None
      ensures registry.dependencies == [] && registry.readSets == [] && registry.writeSets == []
    {
      registry := new Dependencies();
      ready, names, tasks, threadPool := [], map[], [], None;
      registered := [];
    }

    /** The `dependents` loop of `add`: push `id` onto `tasks[d].dependents` for each resolved d. */
    static method PushDependents(tasks: seq<TaskInfo<T>>, ds: seq<nat>, id: nat) returns (updated: seq<TaskInfo<T>>)
      requires forall k :: 0 <= k < |ds| ==> ds[k] < |tasks|
      ensures PushedDependents(tasks, updated, ds, id)
    {
      updated := tasks;
      var k := 0;
      while k < |ds|
        invariant 0 <= k <= |ds|
        invariant PushedDependents(tasks, updated, ds[..k], id)
      {
        var d := ds[k];
        DependentsStep(tasks, updated, ds[..k], d, id);
        updated := updated[d := updated[d].(dependents := updated[d].dependents + [id])];
        assert ds[..k + 1] == ds[..k] + [d];
        k := k + 1;
      }
      assert ds[..k] == ds;
    }

    /** `add(task, name, dep)`, with the task's declared reads and writes passed in. */
    method Add(task: T, name: string, dep: seq<string>, taskReads: seq<R>, taskWrites: seq<R>)
      returns (outcome: AddOutcome)
      requires Valid()
      modifies this, registry
      ensures Valid()
      ensures outcome.Registered? <==> Resolve(old(names), dep).Success?
      ensures outcome.NoSuchTask? ==>
        && Resolve(old(names), dep) == Failure(outcome.name)
        && unchanged(this) && unchanged(registry)
      ensures outcome.Registered? ==>
        var id := old(|tasks|);
        var ds := Resolve(old(names), dep).value;
        && outcome.id == id
        && |tasks| == id + 1
        && tasks[id] == TaskInfo([], TaskDispatch(id, task))
        && PushedDependents(old(tasks), tasks[..id], ds, id)
        && registry.dependencies == old(registry.dependencies) + [ds]
        && registry.readSets == old(registry.readSets) + [taskReads]
        && registry.writeSets == old(registry.writeSets) + [taskWrites]
        && names == old(names)[name := id]
        && ready == (if |dep| == 0 then old(ready) + [id] else old(ready))
        && threadPool == old(threadPool)
        && registered == old(registered) + [name]
    {
      var resolved := Resolve(names, dep);
      if resolved.Failure? {
        outcome := NoSuchTask(resolved.error);
        return;
      }
      var id := Register(task, name, resolved.value, taskReads, taskWrites);
      outcome := Registered(id);
    }

    /** The rest of `add` once every dependency name has resolved to an earlier id in ds. */
    method Register(task: T, name: string, ds: seq<nat>, taskReads: seq<R>, taskWrites: seq<R>)
      returns (id: nat)
      requires Valid()
      requires forall k :: 0 <= k < |ds| ==> ds[k] < |tasks|
      modifies this, registry
      ensures Valid()
      ensures id == old(|tasks|)
      ensures |tasks| == id + 1
      ensures tasks[id] == TaskInfo([], TaskDispatch(id, task))
      ensures PushedDependents(old(tasks), tasks[..id], ds, id)
      ensures registry.dependencies == old(registry.dependencies) + [ds]
      ensures registry.readSets == old(registry.readSets) + [taskReads]
      ensures registry.writeSets == old(registry.writeSets) + [taskWrites]
      ensures names == old(names)[name := id]
      ensures ready == (if |ds| == 0 then old(ready) + [id] else old(ready))
      ensures threadPool == old(threadPool)
      ensures registered == old(registered) + [name]
    {
      id := |tasks|;
      ghost var deps0, tasks0, ready0, names0, registered0 := registry.dependencies, tasks, ready, names, registered;
      var updated := PushDependents(tasks, ds, id);
      registry.Add(id, taskReads, taskWrites, ds);
      names := names[name := id];
      if |ds| == 0 {
        ready := ready + [id];
      }
      tasks := updated + [TaskInfo([], TaskDispatch(id, task))];
      registered := registered + [name];
      RegisterStep(deps0, tasks0, ready0, ds, updated, task, id, registry.dependencies, tasks, ready);
      NamesStep(names0, registered0, name, id, names, registered);
      assert tasks[..id] == updated;
    }

    /** `with_pool`: use the caller's pool instead of creating one on `finish`. */
    method WithPool(pool: ThreadPool)
      requires Valid()
      modifies this
      ensures Valid()
      ensures threadPool == Some(pool)
      ensures ready == old(ready) && names == old(names) && tasks == old(tasks)
      ensures registered == old(registered)
    {
      threadPool := Some(pool);
    }

    /** `finish`: moves the graph into a new dispatcher, sizes the running bitset to the task
        count (all clear), and keeps the supplied pool or else uses `created`, the pool
        `create_thread_pool` makes. Rust moves the registry out of the consumed builder; here the
        dispatcher receives a registry object of its own, so no later call on the builder reaches it. */
    method Finish(created: ThreadPool) returns (d: Dispatcher<R, T>)
      requires Valid()
      ensures fresh(d) && fresh(d.registry) && d.Valid()
      ensures d.registry.dependencies == registry.dependencies
      ensures d.registry.readSets == registry.readSets && d.registry.writeSets == registry.writeSets
      ensures d.registry.revReads == registry.revReads && d.registry.revWrites == registry.revWrites
      ensures d.ready == ready && d.tasks == tasks
      ensures |d.running| == |tasks| && forall i :: 0 <= i < |d.running| ==> !d.running[i]
      ensures d.threadPool == (if threadPool.Some? then threadPool.value else created)
    {
      var size := |tasks|;
      var pool := if threadPool.Some? then threadPool.value else created;
      var frozen := new Dependencies.Copy(registry);
      d := new Dispatcher(frozen, ready, seq(size, _ => false), tasks, pool);
    }
  }

  /** The frozen graph, the running bitset and the pool. `dispatch` itself is an empty stub. */
  class Dispatcher<R(==, !new), T> {
    const registry: Dependencies<R>
    const ready: seq<nat>
    var running: seq<bool>
    const tasks: seq<TaskInfo<T>>
    const threadPool: ThreadPool

    ghost predicate Valid()
      reads this, registry
    {
      WellFormed(registry, tasks, ready) && |running| == |tasks|
    }

    constructor (registry: Dependencies<R>, ready: seq<nat>, running: seq<bool>, tasks: seq<TaskInfo<T>>, threadPool: ThreadPool)
      requires WellFormed(registry, tasks, ready) && |running| == |tasks|
      ensures Valid()
      ensures this.registry == registry && this.ready == ready && this.running == running
      ensures this.tasks == tasks && this.threadPool == threadPool
    {
      this.registry, this.ready, this.running := registry, ready, running;
      this.tasks, this.threadPool := tasks, threadPool;
    }
  }

  /** `dependents` is the exact inverse of `dependencies`. */
  lemma DependentsInverse<R(!new), T>(registry: Dependencies<R>, tasks: seq<TaskInfo<T>>, ready: seq<nat>, a: nat, b: int)
    requires WellFormed(registry, tasks, ready) && a < |tasks|
    ensures b in tasks[a].dependents <==> 0 <= b < |tasks| && a in registry.dependencies[b]
  {
    OccurrencesMember(registry.dependencies, a, b);
  }

  /** Each dependents list names only later tasks, in registration order. */
  lemma DependentsLater<R(!new), T>(registry: Dependencies<R>, tasks: seq<TaskInfo<T>>, ready: seq<nat>, a: nat)
    requires WellFormed(registry, tasks, ready) && a < |tasks|
    ensures forall k :: 0 <= k < |tasks[a].dependents| ==> a < tasks[a].dependents[k] < |tasks|
    ensures forall j, k :: 0 <= j < k < |tasks[a].dependents| ==> tasks[a].dependents[j] <= tasks[a].dependents[k]
  {
    var deps := registry.dependencies;
    OccurrencesOrdered(deps, a);
    forall k | 0 <= k < |tasks[a].dependents| ensures a < tasks[a].dependents[k] {
      var b := tasks[a].dependents[k];
      OccurrencesMember(deps, a, b);
      var m :| 0 <= m < |deps[b]| && deps[b][m] == a;
    }
  }

  /** The ready set holds exactly the tasks without dependencies, in increasing id order. */
  lemma ReadyExactlyRoots<R(!new), T>(registry: Dependencies<R>, tasks: seq<TaskInfo<T>>, ready: seq<nat>, i: int)
    requires WellFormed(registry, tasks, ready)
    ensures i in ready <==> 0 <= i < |tasks| && registry.dependencies[i] == []
    ensures forall j, k :: 0 <= j < k < |ready| ==> ready[j] < ready[k]
  {
    RootsMember(registry.dependencies);
  }
}
