/** The display order computed by `renderTasks`: the indexes of the tasks that
    pass the active filter, sorted open-before-completed, then by priority,
    equal keys keeping their original order. */
module Projection {
  import opened Tasks

  /** `matchesCurrentFilter(task)`, with the active filter and today's
      `YYYY-MM-DD` date passed in. */
  predicate MatchesFilter(t: Task, filter: string, today: string) {
    if filter == "all" then true
    else if filter == "completed" then t.completed
    else if filter == "pending" then !t.completed
    else if filter == "high" then t.priority == "high"
    else if filter == "today" then Truthy(t.dueDate) && t.dueDate.value == today
    else true
  }

  /** What each filter shows. "completed" and "pending" split the tasks in
      two; "today" shows the tasks due on the given (non-empty) date; any
      other name shows everything. */
  lemma FilterSemantics(t: Task, filter: string, today: string)
    ensures filter !in {"completed", "pending", "high", "today"} ==> MatchesFilter(t, filter, today)
    ensures MatchesFilter(t, "completed", today) <==> t.completed
    ensures MatchesFilter(t, "pending", today) <==> !MatchesFilter(t, "completed", today)
    ensures MatchesFilter(t, "high", today) <==> t.priority == "high"
    ensures MatchesFilter(t, "today", today) <==> today != "" && t.dueDate == Some(today)
  {
  }

  /** The priority rank of the comparator: high 0, medium 1, low 2, and any
      other value (missing included) ranked as medium. */
  function Rank(priority: string): (r: nat)
    ensures r <= 2
    ensures r == 0 <==> priority == "high"
    ensures r == 2 <==> priority == "low"
  {
    if priority == "high" then 0
    else if priority == "medium" then 1
    else if priority == "low" then 2
    else 1
  }

  /** 0 for an open task, 1 for a completed one. */
  function Group(t: Task): nat {
    if t.completed then 1 else 0
  }

  /** The comparator passed to `indexes.sort`. */
  function Compare(a: Task, b: Task): int {
    if !a.completed && b.completed then -1
    else if a.completed && !b.completed then 1
    else if Rank(a.priority) < Rank(b.priority) then -1
    else if Rank(a.priority) > Rank(b.priority) then 1
    else 0
  }

  /** The names an object literal such as `{ high: 0, medium: 1, low: 2 }`
      inherits from `Object.prototype`: looking one of them up does not give
      `undefined`. */
  predicate InheritedName(p: string) {
    p in {"constructor", "__defineGetter__", "__defineSetter__", "hasOwnProperty",
          "__lookupGetter__", "__lookupSetter__", "isPrototypeOf", "propertyIsEnumerable",
          "toString", "valueOf", "__proto__", "toLocaleString"}
  }

  /** `order[p] !== undefined ? order[p] : 1` as written: a number, or None
      when the lookup finds an inherited function or object instead. */
  function RankAsWritten(p: string): Option<nat> {
    if InheritedName(p) then None else Some(Rank(p))
  }

  /** The comparator as written. `<` and `>` between a number and an
      inherited function or object compare with NaN and are both false, so
      the result is 0. Two different inherited values are compared as the
      text the engine gives them, which is not modelled (None). */
  function CompareAsWritten(a: Task, b: Task): Option<int> {
    if !a.completed && b.completed then Some(-1)
    else if a.completed && !b.completed then Some(1)
    else
      match (RankAsWritten(a.priority), RankAsWritten(b.priority))
      case (Some(x), Some(y)) => Some(if x < y then -1 else if x > y then 1 else 0)
      case (None, None) => if a.priority == b.priority then Some(0) else None
      case _ => Some(0)
  }

  /** With a stored priority of "constructor" the comparator as written ties
      that task with both a high and a low task while ranking high before low:
      "compares equal" is not transitive, so the comparator is not consistent
      and the order `sort` produces is implementation-defined. Ranked as
      medium, as the code's comment intends, it falls between the two. */
  lemma InheritedPriorityBreaksComparator()
    ensures var h := Task("h", "H", false, "high", None, "t0");
      var l := Task("l", "L", false, "low", None, "t1");
      var c := Task("c", "C", false, "constructor", None, "t2");
      && CompareAsWritten(h, l) == Some(-1)
      && CompareAsWritten(c, h) == Some(0) && CompareAsWritten(c, l) == Some(0)
      && Compare(h, c) == -1 && Compare(c, l) == -1
  {
    assert InheritedName("constructor");
    assert !InheritedName("high") && !InheritedName("low");
  }

  /** Away from inherited names the comparator as written is `Compare`. */
  lemma CompareAsWrittenAgrees(a: Task, b: Task)
    requires !InheritedName(a.priority) && !InheritedName(b.priority)
    ensures CompareAsWritten(a, b) == Some(Compare(a, b))
  {
  }

  /** The sort key (completed, rank) of `a` is strictly smaller than that of `b`. */
  predicate KeyLess(a: Task, b: Task) {
    Group(a) < Group(b) || (Group(a) == Group(b) && Rank(a.priority) < Rank(b.priority))
  }

  predicate SameKey(a: Task, b: Task) {
    Group(a) == Group(b) && Rank(a.priority) == Rank(b.priority)
  }

  /** The comparator is the lexicographic order on (completed, rank), and it
      is consistent in the sense the sort requires: antisymmetric, with a
      transitive "less" and a transitive "equal". */
  lemma CompareIsKeyOrder(a: Task, b: Task, c: Task)
    ensures Compare(a, b) < 0 <==> KeyLess(a, b)
    ensures Compare(a, b) == 0 <==> SameKey(a, b)
    ensures Compare(a, b) > 0 <==> KeyLess(b, a)
    ensures Compare(a, b) == -Compare(b, a)
    ensures Compare(a, b) < 0 && Compare(b, c) < 0 ==> Compare(a, c) < 0
    ensures Compare(a, b) == 0 && Compare(b, c) == 0 ==> Compare(a, c) == 0
  {
  }

  /** Index `i` is displayed before index `j`: a smaller key, or the same key
      and an earlier position in the task list (the sort is stable and starts
      from the indexes in increasing order). */
  predicate Precedes(tasks: seq<Task>, i: nat, j: nat)
    requires i < |tasks| && j < |tasks|
  {
    KeyLess(tasks[i], tasks[j]) || (SameKey(tasks[i], tasks[j]) && i < j)
  }

  /** `order` lists valid indexes in strictly increasing display order. */
  ghost predicate Sorted(tasks: seq<Task>, order: seq<nat>) {
    && (forall p :: 0 <= p < |order| ==> order[p] < |tasks|)
    && (forall p, q :: 0 <= p < q < |order| ==> Precedes(tasks, order[p], order[q]))
  }

  /** `order` is the display order for `filter`: exactly the indexes whose task
      passes the filter, each once, in display order. */
  ghost predicate IsProjection(tasks: seq<Task>, filter: string, today: string, order: seq<nat>) {
    && Sorted(tasks, order)
    && (forall i :: i in order <==> 0 <= i < |tasks| && MatchesFilter(tasks[i], filter, today))
  }

  /** What a display order promises, spelled out: no index twice, every open
      task before every completed one, priority ranks non-decreasing within
      each group, and tasks with equal keys in their original order. */
  lemma ProjectionMeaning(tasks: seq<Task>, filter: string, today: string, order: seq<nat>, p: int, q: int)
    requires IsProjection(tasks, filter, today, order)
    requires 0 <= p < q < |order|
    ensures order[p] != order[q]
    ensures tasks[order[p]].completed ==> tasks[order[q]].completed
    ensures tasks[order[p]].completed == tasks[order[q]].completed ==>
      Rank(tasks[order[p]].priority) <= Rank(tasks[order[q]].priority)
    ensures SameKey(tasks[order[p]], tasks[order[q]]) ==> order[p] < order[q]
  {
  }

  /** `renderTasks` without the DOM: the index list, filtered, then sorted
      with the comparator. */
  method RenderOrder(tasks: seq<Task>, filter: string, today: string) returns (order: seq<nat>)
    ensures IsProjection(tasks, filter, today, order)
  {
    var indexes := FilterIndexes(tasks, filter, today);
    order := SortIndexes(tasks, indexes);
  }

  /** Steps 0 and 1 of `renderTasks`: the indexes of the tasks that pass the
      filter, in increasing order. */
  method FilterIndexes(tasks: seq<Task>, filter: string, today: string) returns (indexes: seq<nat>)
    ensures forall p :: 0 <= p < |indexes| ==> indexes[p] < |tasks|
    ensures forall p, q :: 0 <= p < q < |indexes| ==> indexes[p] < indexes[q]
    ensures forall j :: j in indexes <==> 0 <= j < |tasks| && MatchesFilter(tasks[j], filter, today)
  {
    indexes := [];
    for i := 0 to |tasks|
      invariant forall p :: 0 <= p < |indexes| ==> indexes[p] < i
      invariant forall p, q :: 0 <= p < q < |indexes| ==> indexes[p] < indexes[q]
      invariant forall j :: j in indexes <==> 0 <= j < i && MatchesFilter(tasks[j], filter, today)
    {
      if MatchesFilter(tasks[i], filter, today) {
        indexes := indexes + [i];
      }
    }
  }

  /** Step 2 of `renderTasks`: `indexes.sort(compare)`, written as the stable
      insertion sort it must behave like. Each index is inserted after every
      earlier one that compares <= 0 with it. */
  method SortIndexes(tasks: seq<Task>, indexes: seq<nat>) returns (order: seq<nat>)
    requires forall p :: 0 <= p < |indexes| ==> indexes[p] < |tasks|
    requires forall p, q :: 0 <= p < q < |indexes| ==> indexes[p] < indexes[q]
    ensures Sorted(tasks, order)
    ensures forall x :: x in order <==> x in indexes
  {
    order := [];
    for k := 0 to |indexes|
      invariant Sorted(tasks, order)
      invariant forall x :: x in order <==> x in indexes[..k]
    {
      var x := indexes[k];
      assert forall p :: 0 <= p < |order| ==> order[p] < x by {
        forall p | 0 <= p < |order| ensures order[p] < x {
          assert order[p] in indexes[..k];
        }
      }
      var pos := InsertionPoint(tasks, order, x);
      InsertSorted(tasks, order, pos, x);
      order := order[..pos] + [x] + order[pos..];
      assert indexes[..k + 1] == indexes[..k] + [x];
    }
    assert indexes[..|indexes|] == indexes;
  }

  /** Where the stable insertion puts `x`: after the last entry that compares
      <= 0 with it, every later entry comparing > 0. */
  method InsertionPoint(tasks: seq<Task>, order: seq<nat>, x: nat) returns (pos: nat)
    requires Sorted(tasks, order) && x < |tasks|
    requires forall p :: 0 <= p < |order| ==> order[p] < x
    ensures pos <= |order|
    ensures forall p :: pos <= p < |order| ==> Precedes(tasks, x, order[p])
    ensures pos > 0 ==> Compare(tasks[order[pos - 1]], tasks[x]) <= 0
  {
    pos := |order|;
    while pos > 0 && Compare(tasks[order[pos - 1]], tasks[x]) > 0
      invariant 0 <= pos <= |order|
      invariant forall p :: pos <= p < |order| ==> Precedes(tasks, x, order[p])
    {
      CompareIsKeyOrder(tasks[order[pos - 1]], tasks[x], tasks[x]);
      pos := pos - 1;
    }
  }

  /** Inserting `x` where the insertion sort stops keeps the order sorted. */
  lemma InsertSorted(tasks: seq<Task>, order: seq<nat>, pos: nat, x: nat)
    requires Sorted(tasks, order) && x < |tasks| && pos <= |order|
    requires forall p :: 0 <= p < |order| ==> order[p] < x
    requires forall p :: pos <= p < |order| ==> Precedes(tasks, x, order[p])
    requires pos > 0 ==> Compare(tasks[order[pos - 1]], tasks[x]) <= 0
    ensures Sorted(tasks, order[..pos] + [x] + order[pos..])
  {
    if pos > 0 {
      CompareIsKeyOrder(tasks[order[pos - 1]], tasks[x], tasks[x]);
      assert Precedes(tasks, order[pos - 1], x);
    }
    var r := order[..pos] + [x] + order[pos..];
    forall p, q | 0 <= p < q < |r|
      ensures Precedes(tasks, r[p], r[q])
    {
      if q < pos {
        assert r[p] == order[p] && r[q] == order[q];
      } else if q == pos {
        assert r[q] == x && r[p] == order[p];
        if p < pos - 1 {
          assert Precedes(tasks, order[p], order[pos - 1]);
        }
      } else if p == pos {
        assert r[p] == x && r[q] == order[q - 1];
      } else if p < pos {
        assert r[p] == order[p] && r[q] == order[q - 1];
      } else {
        assert r[p] == order[p - 1] && r[q] == order[q - 1];
      }
    }
  }

  /** Display order is strict: no index precedes itself, and of two indexes
      at most one precedes the other. */
  lemma PrecedesStrict(tasks: seq<Task>, i: nat, j: nat)
    requires i < |tasks| && j < |tasks|
    ensures Precedes(tasks, i, j) ==> i != j && !Precedes(tasks, j, i)
  {
  }

  /** The first entry of a sorted list precedes every later one. */
  lemma SortedHead(tasks: seq<Task>, s: seq<nat>, k: nat)
    requires Sorted(tasks, s) && k < |s|
    ensures k > 0 ==> Precedes(tasks, s[0], s[k])
  {
  }

  /** There is only one display order: two sorted lists holding the same
      indexes are equal. */
  lemma {:induction false} SortedUnique(tasks: seq<Task>, a: seq<nat>, b: seq<nat>)
    requires Sorted(tasks, a) && Sorted(tasks, b)
    requires forall x :: x in a <==> x in b
    ensures a == b
    decreases |a|
  {
    if a != [] {
      assert a[0] in b;
    }
    if b != [] {
      assert b[0] in a;
    }
    if a != [] {
      var j :| 0 <= j < |b| && b[j] == a[0];
      var i :| 0 <= i < |a| && a[i] == b[0];
      SortedHead(tasks, a, i);
      SortedHead(tasks, b, j);
      PrecedesStrict(tasks, a[0], b[0]);
      assert a[0] == b[0];
      forall x
        ensures x in a[1..] <==> x in b[1..]
      {
        if x in a[1..] {
          var p :| 0 <= p < |a[1..]| && a[1..][p] == x;
          assert Precedes(tasks, a[0], a[p + 1]);
          PrecedesStrict(tasks, a[0], x);
          assert x in b;
          var q :| 0 <= q < |b| && b[q] == x;
          assert q != 0;
          assert b[1..][q - 1] == x;
        }
        if x in b[1..] {
          var p :| 0 <= p < |b[1..]| && b[1..][p] == x;
          assert Precedes(tasks, b[0], b[p + 1]);
          PrecedesStrict(tasks, b[0], x);
          assert x in a;
          var q :| 0 <= q < |a| && a[q] == x;
          assert q != 0;
          assert a[1..][q - 1] == x;
        }
      }
      SortedUnique(tasks, a[1..], b[1..]);
      assert a == [a[0]] + a[1..] && b == [b[0]] + b[1..];
    }
  }

  /** Four tasks added in this order: an open high, an open low, a completed
      high and an open medium task. */
  function ExampleTasks(): seq<Task> {
    [ Task("a", "A", false, "high", None, "t0"),
      Task("b", "B", false, "low", None, "t1"),
      Task("c", "C", true, "high", None, "t2"),
      Task("d", "D", false, "medium", None, "t3") ]
  }

  /** Under "all" they are shown as A, D, B, C. */
  lemma ExampleOrder(today: string, order: seq<nat>)
    requires IsProjection(ExampleTasks(), "all", today, order)
    ensures order == [0, 3, 1, 2]
  {
    var ts := ExampleTasks();
    var expected: seq<nat> := [0, 3, 1, 2];
    assert Sorted(ts, expected);
    forall x ensures x in order <==> x in expected {
      if x in expected {
        assert 0 <= x < |ts| && MatchesFilter(ts[x], "all", today);
      }
    }
    SortedUnique(ts, order, expected);
  }
}
