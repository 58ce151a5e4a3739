/**
 * The shape shared by the scheduler's two inverse indices.
 *
 * `Dependencies` keeps, per task id i, a row of things (resource ids it
 * reads, resource ids it writes, or task ids it depends on). An inverse index
 * maps a thing x to the ids of the rows that mention it: in row order, and
 * once per occurrence of x in the row. That ordered list is `Occurrences`.
 */
module Indexing {

  /** n copies of the task id x. */
  function Repeat(x: nat, n: nat): (r: seq<nat>)
    ensures |r| == n
  {
    if n == 0 then [] else Repeat(x, n - 1) + [x]
  }

  lemma {:induction false} RepeatCount(x: nat, n: nat, y: int)
    ensures multiset(Repeat(x, n))[y] == if y == x then n else 0
  {
    if n > 0 {
      RepeatCount(x, n - 1, y);
    }
  }

  lemma {:induction false} RepeatElements(x: nat, n: nat)
    ensures forall k :: 0 <= k < n ==> Repeat(x, n)[k] == x
  {
    if n > 0 {
      RepeatElements(x, n - 1);
    }
  }

  /** One more mention of key in the pushed keys gives key one more copy of id. */
  lemma OneMoreMention<X>(prefix: seq<X>, key: X, id: nat)
    ensures Repeat(id, multiset(prefix + [key])[key]) == Repeat(id, multiset(prefix)[key]) + [id]
  {
    assert multiset(prefix + [key])[key] == multiset(prefix)[key] + 1;
  }

  /** A mention of key leaves the copies of id for every other x as they were. */
  lemma OtherMention<X>(prefix: seq<X>, key: X, id: nat, x: X)
    requires x != key
    ensures Repeat(id, multiset(prefix + [key])[x]) == Repeat(id, multiset(prefix)[x])
  {
    assert multiset(prefix + [key])[x] == multiset(prefix)[x];
  }

  /** The list an inverse index stores for x: row ids mentioning x, in order, once per mention. */
  function Occurrences<X(==)>(rows: seq<seq<X>>, x: X): seq<nat>
  {
    if |rows| == 0 then []
    else
      var last: nat := |rows| - 1;
      Occurrences(rows[..last], x) + Repeat(last, multiset(rows[last])[x])
  }

  /** A hash-map lookup with a missing key read as the empty list. */
  function Lookup<K, V>(m: map<K, seq<V>>, k: K): seq<V>
  {
    if k in m then m[k] else []
  }

  /** Appending a row for id |rows| appends that id once per mention of x. */
  lemma {:induction false} OccurrencesAppend<X>(rows: seq<seq<X>>, row: seq<X>, x: X)
    ensures Occurrences(rows + [row], x) == Occurrences(rows, x) + Repeat(|rows|, multiset(row)[x])
  {
    var grown := rows + [row];
    var n: nat := |rows|;
    assert grown[..n] == rows;
    assert grown[n] == row;
    assert Occurrences(grown, x) == Occurrences(grown[..n], x) + Repeat(n, multiset(grown[n])[x]);
  }

  /** Row i appears in the list for x exactly as often as x appears in row i. */
  lemma {:induction false} OccurrencesCount<X>(rows: seq<seq<X>>, x: X, i: int)
    ensures multiset(Occurrences(rows, x))[i] == if 0 <= i < |rows| then multiset(rows[i])[x] else 0
  {
    if |rows| > 0 {
      var n: nat := |rows| - 1;
      var front, tail := Occurrences(rows[..n], x), Repeat(n, multiset(rows[n])[x]);
      assert Occurrences(rows, x) == front + tail;
      assert multiset(front + tail) == multiset(front) + multiset(tail);
      OccurrencesCount(rows[..n], x, i);
      if 0 <= i < n {
        assert rows[..n][i] == rows[i];
      }
      if 0 <= i {
        RepeatCount(n, multiset(rows[n])[x], i);
      } else {
        RepeatElements(n, multiset(rows[n])[x]);
        assert i !in tail;
      }
    }
  }

  /** Membership in the inverse index is exactly membership in the row. */
  lemma OccurrencesMember<X>(rows: seq<seq<X>>, x: X, i: int)
    ensures i in Occurrences(rows, x) <==> 0 <= i < |rows| && x in rows[i]
  {
    OccurrencesCount(rows, x, i);
  }

  /** The inverse index lists ids in registration order. */
  lemma {:induction false} OccurrencesOrdered<X>(rows: seq<seq<X>>, x: X)
    ensures forall k :: 0 <= k < |Occurrences(rows, x)| ==> Occurrences(rows, x)[k] < |rows|
    ensures forall j, k :: 0 <= j < k < |Occurrences(rows, x)| ==> Occurrences(rows, x)[j] <= Occurrences(rows, x)[k]
  {
    if |rows| > 0 {
      var n: nat := |rows| - 1;
      var front, tail := Occurrences(rows[..n], x), Repeat(n, multiset(rows[n])[x]);
      assert Occurrences(rows, x) == front + tail;
      OccurrencesOrdered(rows[..n], x);
      RepeatElements(n, multiset(rows[n])[x]);
      assert forall k :: 0 <= k < |front| ==> (front + tail)[k] == front[k];
      assert forall k :: |front| <= k < |front + tail| ==> (front + tail)[k] == tail[k - |front|];
    }
  }

  /** A thing no row mentions has an empty list. */
  lemma {:induction false} OccurrencesAbsent<X>(rows: seq<seq<X>>, x: X)
    requires forall i :: 0 <= i < |rows| ==> x !in rows[i]
    ensures Occurrences(rows, x) == []
  {
    if |rows| > 0 {
      var n: nat := |rows| - 1;
      assert forall i :: 0 <= i < n ==> rows[..n][i] == rows[i];
      OccurrencesAbsent(rows[..n], x);
      assert multiset(rows[n])[x] == 0;
    }
  }
}
