/**
 * The explicit-dependency graph as the builder leaves it: row i of
 * `deps` lists the ids task i depends on. Because a dependency is resolved
 * through names registered earlier, every edge points to a lower id, so
 * registration order is a topological order and no path can return to its start.
 */
module Graph {

  /** Every dependency of task i has an id below i. */
  ghost predicate BackwardEdges(deps: seq<seq<nat>>)
  {
    forall i, k :: 0 <= i < |deps| && 0 <= k < |deps[i]| ==> deps[i][k] < i
  }

  /** p is a walk along dependency edges: each step goes from a task to one of its dependencies. */
  ghost predicate IsPath(deps: seq<seq<nat>>, p: seq<nat>)
  {
    && |p| >= 1
    && (forall k :: 0 <= k < |p| ==> p[k] < |deps|)
    && (forall k :: 1 <= k < |p| ==> p[k] in deps[p[k - 1]])
  }

  /** Along any walk of at least one step the id strictly decreases. */
  lemma {:induction false} PathDescends(deps: seq<seq<nat>>, p: seq<nat>)
    requires BackwardEdges(deps) && IsPath(deps, p) && |p| >= 2
    ensures p[|p| - 1] < p[0]
  {
    assert p[1] in deps[p[0]];
    var k :| 0 <= k < |deps[p[0]]| && deps[p[0]][k] == p[1];
    if |p| > 2 {
      var rest := p[1..];
      assert forall j :: 1 <= j < |rest| ==> rest[j] == p[j + 1] && rest[j - 1] == p[j];
      PathDescends(deps, rest);
    }
  }

  /** Hence the graph is acyclic: no walk of one step or more ends where it started. */
  lemma NoCycle(deps: seq<seq<nat>>, p: seq<nat>)
    requires BackwardEdges(deps) && IsPath(deps, p) && |p| >= 2
    ensures p[|p| - 1] != p[0]
  {
    PathDescends(deps, p);
  }

  /** The initial ready set: ids of tasks with no dependencies, in registration order. */
  function Roots(deps: seq<seq<nat>>): seq<nat>
  {
    if |deps| == 0 then []
    else
      var last: nat := |deps| - 1;
      Roots(deps[..last]) + (if deps[last] == [] then [last] else [])
  }

  /** Registering one more task adds its id to the ready set iff it has no dependencies. */
  lemma {:induction false} RootsAppend(deps: seq<seq<nat>>, row: seq<nat>)
    ensures Roots(deps + [row]) == Roots(deps) + (if row == [] then [|deps|] else [])
  {
    var grown := deps + [row];
    assert grown[..|deps|] == deps;
    assert grown[|deps|] == row;
  }

  /** The ready set holds exactly the tasks without dependencies, each once, in increasing order. */
  lemma {:induction false} RootsMember(deps: seq<seq<nat>>)
    ensures forall i :: i in Roots(deps) <==> 0 <= i < |deps| && deps[i] == []
    ensures forall j, k :: 0 <= j < k < |Roots(deps)| ==> Roots(deps)[j] < Roots(deps)[k]
  {
    if |deps| > 0 {
      var last: nat := |deps| - 1;
      var front := deps[..last];
      RootsMember(front);
      assert forall i :: 0 <= i < last ==> front[i] == deps[i];
      var tail: seq<nat> := if deps[last] == [] then [last] else [];
      assert Roots(deps) == Roots(front) + tail;
      assert forall j :: 0 <= j < |Roots(front)| ==> Roots(front)[j] < last by {
        forall j | 0 <= j < |Roots(front)| ensures Roots(front)[j] < last {
          assert Roots(front)[j] in Roots(front);
        }
      }
    }
  }
}
