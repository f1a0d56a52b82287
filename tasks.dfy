/**
 * Tasks and the two operations on lists of them that the planner uses:
 * ordering by deadline (nearest first, equal deadlines kept in list order, as
 * `Array.prototype.sort` must since ECMAScript 2019) and removing every task
 * with a given id.
 */
module Tasks {

  /**
   * One planner entry. The deadline is the instant the deadline field
   * denotes, in milliseconds; `createdAt` is the ISO-8601 creation stamp.
   */
  datatype Task = Task(id: int, name: string, deadline: int, priority: string, createdAt: string)

  /** Nearest deadline first. */
  predicate Sorted(s: seq<Task>)
  {
    forall i, j :: 0 <= i < j < |s| ==> s[i].deadline <= s[j].deadline
  }

  /** The tasks of `s` due at `when`, in their order in `s`. */
  function DueAt(s: seq<Task>, when: int): (r: seq<Task>)
    ensures forall t :: t in r <==> t in s && t.deadline == when
    ensures |r| <= |s|
  {
    if s == [] then []
    else (if s[0].deadline == when then [s[0]] else []) + DueAt(s[1..], when)
  }

  /**
   * `r` keeps the relative order of the tasks of `s` that share a deadline:
   * for every deadline, the tasks due then come in the same order in both.
   */
  ghost predicate Stable(r: seq<Task>, s: seq<Task>)
  {
    forall when :: DueAt(r, when) == DueAt(s, when)
  }

  /** Places `t` into a sorted list after every task due no later than it. */
  function Insert(s: seq<Task>, t: Task): (r: seq<Task>)
    ensures |r| == |s| + 1
  {
    if s == [] then [t]
    else if t.deadline < s[0].deadline then [t] + s
    else [s[0]] + Insert(s[1..], t)
  }

  /** The tasks of `s` by deadline: insertion of each task in turn, last one last. */
  function Sort(s: seq<Task>): (r: seq<Task>)
    ensures |r| == |s|
  {
    if s == [] then [] else Insert(Sort(s[..|s| - 1]), s[|s| - 1])
  }

  /** The tasks of `ts` whose id is not `id`, in their order in `ts`. */
  function Without(ts: seq<Task>, id: int): (r: seq<Task>)
    ensures forall t :: t in r <==> t in ts && t.id != id
    ensures |r| <= |ts|
  {
    if ts == [] then []
    else (if ts[0].id != id then [ts[0]] else []) + Without(ts[1..], id)
  }

  /** Inserting adds exactly the one task. */
  lemma {:induction false} InsertMultiset(p: seq<Task>, t: Task)
    ensures multiset(Insert(p, t)) == multiset(p) + multiset{t}
    decreases |p|
  {
    if p != [] && t.deadline >= p[0].deadline {
      InsertMultiset(p[1..], t);
      assert p == [p[0]] + p[1..];
    }
  }

  lemma {:induction false} InsertSorted(p: seq<Task>, t: Task)
    requires Sorted(p)
    ensures Sorted(Insert(p, t))
    decreases |p|
  {
    if p != [] && t.deadline >= p[0].deadline {
      InsertSorted(p[1..], t);
      InsertMultiset(p[1..], t);
      var q := Insert(p[1..], t);
      forall k | 0 <= k < |q| ensures p[0].deadline <= q[k].deadline {
        assert q[k] in multiset(q);
        if q[k] != t {
          assert q[k] in multiset(p[1..]);
          var m :| 0 <= m < |p[1..]| && p[1..][m] == q[k];
          assert p[0].deadline <= p[m + 1].deadline;
        }
      }
      assert Insert(p, t) == [p[0]] + q;
    }
  }

  lemma {:induction false} DueAtAppend(a: seq<Task>, b: seq<Task>, when: int)
    ensures DueAt(a + b, when) == DueAt(a, when) + DueAt(b, when)
    decreases |a|
  {
    if a != [] {
      DueAtAppend(a[1..], b, when);
      var head := if a[0].deadline == when then [a[0]] else [];
      assert (a + b)[0] == a[0];
      assert (a + b)[1..] == a[1..] + b;
      calc {
        DueAt(a + b, when);
        head + DueAt(a[1..] + b, when);
        head + (DueAt(a[1..], when) + DueAt(b, when));
        (head + DueAt(a[1..], when)) + DueAt(b, when);
        DueAt(a, when) + DueAt(b, when);
      }
    } else {
      assert a + b == b;
    }
  }

  /** No task of a sorted list is due before its first one. */
  lemma {:induction false} NoneDueBeforeFirst(p: seq<Task>, when: int)
    requires Sorted(p) && p != [] && when < p[0].deadline
    ensures DueAt(p, when) == []
    decreases |p|
  {
    if |p| > 1 {
      NoneDueBeforeFirst(p[1..], when);
    }
  }

  /** Inserting `t` puts it after every task already due at its deadline. */
  lemma {:induction false} InsertDueAt(p: seq<Task>, t: Task, when: int)
    requires Sorted(p)
    ensures DueAt(Insert(p, t), when) == DueAt(p, when) + (if t.deadline == when then [t] else [])
    decreases |p|
  {
    if p == [] {
    } else if t.deadline < p[0].deadline {
      if t.deadline == when {
        NoneDueBeforeFirst(p, when);
      }
    } else {
      InsertDueAt(p[1..], t, when);
    }
  }

  /** The sort orders by deadline and keeps every task. */
  lemma {:induction false} SortSorted(s: seq<Task>)
    ensures Sorted(Sort(s))
    ensures multiset(Sort(s)) == multiset(s)
    decreases |s|
  {
    if s != [] {
      var init, last := s[..|s| - 1], s[|s| - 1];
      assert s == init + [last];
      SortSorted(init);
      InsertSorted(Sort(init), last);
      InsertMultiset(Sort(init), last);
    }
  }

  /** The sort keeps tasks with equal deadlines in list order. */
  lemma {:induction false} SortStable(s: seq<Task>)
    ensures Stable(Sort(s), s)
    decreases |s|
  {
    if s != [] {
      var init, last := s[..|s| - 1], s[|s| - 1];
      assert s == init + [last];
      SortStable(init);
      SortSorted(init);
      forall when ensures DueAt(Sort(s), when) == DueAt(s, when) {
        var tail := if last.deadline == when then [last] else [];
        InsertDueAt(Sort(init), last, when);
        DueAtAppend(init, [last], when);
        assert DueAt([last], when) == tail + DueAt([], when);
        assert DueAt(Sort(s), when) == DueAt(Sort(init), when) + tail;
        assert DueAt(Sort(init), when) == DueAt(init, when);
      }
    }
  }

  /** The sort orders by deadline, keeps every task and keeps ties in list order. */
  lemma SortCorrect(s: seq<Task>)
    ensures Sorted(Sort(s))
    ensures multiset(Sort(s)) == multiset(s)
    ensures Stable(Sort(s), s)
  {
    SortSorted(s);
    SortStable(s);
  }

  lemma FirstIsEarliest(s: seq<Task>, t: Task)
    requires Sorted(s) && t in s
    ensures s[0].deadline <= t.deadline
  {
    var k :| 0 <= k < |s| && s[k] == t;
  }

  /** The first task of a list is the first of those due at its deadline. */
  lemma HeadDue(s: seq<Task>)
    requires s != []
    ensures DueAt(s, s[0].deadline) == [s[0]] + DueAt(s[1..], s[0].deadline)
  {
  }

  /** Two sorted, mutually stable lists start with the same task. */
  lemma SameHead(a: seq<Task>, b: seq<Task>)
    requires Sorted(a) && Sorted(b) && Stable(a, b) && a != [] && b != []
    ensures a[0] == b[0]
  {
    var ka, kb := a[0].deadline, b[0].deadline;
    HeadDue(a);
    HeadDue(b);
    assert DueAt(a, ka) == DueAt(b, ka);
    assert DueAt(a, kb) == DueAt(b, kb);
    assert a[0] in DueAt(b, ka);
    assert b[0] in DueAt(a, kb);
    FirstIsEarliest(b, a[0]);
    FirstIsEarliest(a, b[0]);
    assert ka == kb;
    assert a[0] == DueAt(a, ka)[0] == DueAt(b, kb)[0] == b[0];
  }

  /** Mutually stable lists with the same first task stay so without it. */
  lemma StableTails(a: seq<Task>, b: seq<Task>)
    requires Stable(a, b) && a != [] && b != [] && a[0] == b[0]
    ensures Stable(a[1..], b[1..])
  {
    forall when ensures DueAt(a[1..], when) == DueAt(b[1..], when) {
      var head := if a[0].deadline == when then [a[0]] else [];
      assert DueAt(a, when) == DueAt(b, when);
      assert DueAt(a, when) == head + DueAt(a[1..], when);
      assert DueAt(b, when) == head + DueAt(b[1..], when);
      assert DueAt(a[1..], when) == DueAt(a, when)[|head|..];
      assert DueAt(b[1..], when) == DueAt(b, when)[|head|..];
    }
  }

  /** Lists that are mutually stable are both empty or both not. */
  lemma StableEmpty(a: seq<Task>, b: seq<Task>)
    requires Stable(a, b)
    ensures a == [] <==> b == []
  {
    if a != [] {
      HeadDue(a);
      assert DueAt(a, a[0].deadline) == DueAt(b, a[0].deadline);
    }
    if b != [] {
      HeadDue(b);
      assert DueAt(a, b[0].deadline) == DueAt(b, b[0].deadline);
    }
  }

  /**
   * A list sorted by deadline is determined by the order of the tasks at each
   * deadline: any two sorted, mutually stable lists are equal. So every
   * stable sort by deadline gives `Sort`'s result.
   */
  lemma {:induction false} StableSortUnique(a: seq<Task>, b: seq<Task>)
    requires Sorted(a) && Sorted(b) && Stable(a, b)
    ensures a == b
    decreases |a|
  {
    StableEmpty(a, b);
    if a != [] {
      SameHead(a, b);
      StableTails(a, b);
      StableSortUnique(a[1..], b[1..]);
      assert a == [a[0]] + a[1..];
      assert b == [b[0]] + b[1..];
    }
  }

  /** Sorting a list that is already in deadline order leaves it as it is. */
  lemma SortKeepsSorted(s: seq<Task>)
    requires Sorted(s)
    ensures Sort(s) == s
  {
    SortCorrect(s);
    StableSortUnique(Sort(s), s);
  }

  /** Where the insertion sort's inner scan stops is where `Insert` places the task. */
  lemma {:induction false} InsertAt(p: seq<Task>, t: Task, j: nat)
    requires Sorted(p) && j <= |p|
    requires j > 0 ==> p[j - 1].deadline <= t.deadline
    requires forall k :: j <= k < |p| ==> p[k].deadline > t.deadline
    ensures Insert(p, t) == p[..j] + [t] + p[j..]
    decreases |p|
  {
    if j > 0 {
      assert p[0].deadline <= p[j - 1].deadline;
      InsertAt(p[1..], t, j - 1);
      assert p[..j] == [p[0]] + p[1..][..j - 1];
      assert p[j..] == p[1..][j - 1..];
    }
  }

  /**
   * The insertion sort's inner scan: starting at the end of a sorted list,
   * step left past every task due strictly later than `t`. The stop is the
   * place `Insert` puts `t`.
   */
  method InsertionPoint(r: seq<Task>, t: Task) returns (j: nat)
    requires Sorted(r)
    ensures j <= |r| && Insert(r, t) == r[..j] + [t] + r[j..]
  {
    j := |r|;
    while j > 0 && r[j - 1].deadline > t.deadline
      invariant 0 <= j <= |r|
      invariant forall k :: j <= k < |r| ==> r[k].deadline > t.deadline
    {
      j := j - 1;
    }
    InsertAt(r, t, j);
  }

  /**
   * Insertion sort by deadline: each task is moved left past the tasks due
   * strictly later than it, so that ties keep their order.
   */
  method SortByDeadline(s: seq<Task>) returns (r: seq<Task>)
    ensures r == Sort(s)
    ensures Sorted(r) && multiset(r) == multiset(s) && Stable(r, s)
  {
    r := [];
    var i := 0;
    while i < |s|
      invariant 0 <= i <= |s|
      invariant r == Sort(s[..i])
      invariant Sorted(r)
    {
      var t := s[i];
      var j := InsertionPoint(r, t);
      InsertSorted(r, t);
      assert s[..i + 1][..i] == s[..i];
      r := r[..j] + [t] + r[j..];
      i := i + 1;
    }
    assert s[..|s|] == s;
    SortCorrect(s);
  }

  lemma {:induction false} WithoutAppend(a: seq<Task>, b: seq<Task>, id: int)
    ensures Without(a + b, id) == Without(a, id) + Without(b, id)
    decreases |a|
  {
    if a != [] {
      WithoutAppend(a[1..], b, id);
      var head := if a[0].id != id then [a[0]] else [];
      assert (a + b)[0] == a[0];
      assert (a + b)[1..] == a[1..] + b;
      calc {
        Without(a + b, id);
        head + Without(a[1..] + b, id);
        head + (Without(a[1..], id) + Without(b, id));
        (head + Without(a[1..], id)) + Without(b, id);
        Without(a, id) + Without(b, id);
      }
    } else {
      assert a + b == b;
    }
  }

  /** Deleting an id that no task has leaves the list as it is. */
  lemma {:induction false} WithoutAbsent(ts: seq<Task>, id: int)
    requires forall t :: t in ts ==> t.id != id
    ensures Without(ts, id) == ts
    decreases |ts|
  {
    if ts != [] {
      assert ts[0] in ts;
      WithoutAbsent(ts[1..], id);
      assert ts == [ts[0]] + ts[1..];
    }
  }

  /** Deleting the same id a second time changes nothing. */
  lemma WithoutIdempotent(ts: seq<Task>, id: int)
    ensures Without(Without(ts, id), id) == Without(ts, id)
  {
    WithoutAbsent(Without(ts, id), id);
  }

  /** The list gets shorter exactly when some task has the id. */
  lemma {:induction false} WithoutShrinksIff(ts: seq<Task>, id: int)
    ensures |Without(ts, id)| < |ts| <==> exists t :: t in ts && t.id == id
    decreases |ts|
  {
    if ts != [] {
      WithoutShrinksIff(ts[1..], id);
      assert ts == [ts[0]] + ts[1..];
      if ts[0].id == id {
        assert ts[0] in ts;
      }
    }
  }

  /**
   * Deleting the id of a task just appended gives back the list before the
   * append, provided no earlier task had that id; ids come from the clock and
   * are not checked for repeats, so that proviso is not guaranteed.
   */
  lemma DeleteUndoesAdd(ts: seq<Task>, t: Task)
    requires forall u :: u in ts ==> u.id != t.id
    ensures Without(ts + [t], t.id) == ts
  {
    WithoutAppend(ts, [t], t.id);
    WithoutAbsent(ts, t.id);
    assert Without([t], t.id) == [] + Without([], t.id);
  }

  /** Deleting keeps a sorted list sorted. */
  lemma {:induction false} WithoutSorted(ts: seq<Task>, id: int)
    requires Sorted(ts)
    ensures Sorted(Without(ts, id))
    decreases |ts|
  {
    if ts != [] {
      WithoutSorted(ts[1..], id);
      var rest := Without(ts[1..], id);
      forall u | u in rest ensures ts[0].deadline <= u.deadline {
        var k :| 0 <= k < |ts[1..]| && ts[1..][k] == u;
        assert ts[0].deadline <= ts[k + 1].deadline;
      }
    }
  }

  lemma {:induction false} WithoutDueAt(ts: seq<Task>, id: int, when: int)
    ensures DueAt(Without(ts, id), when) == Without(DueAt(ts, when), id)
    decreases |ts|
  {
    if ts != [] {
      WithoutDueAt(ts[1..], id, when);
      var head := if ts[0].id != id then [ts[0]] else [];
      DueAtAppend(head, Without(ts[1..], id), when);
      WithoutAppend(if ts[0].deadline == when then [ts[0]] else [], DueAt(ts[1..], when), id);
    }
  }

  /**
   * Deleting from the list in deadline order gives the list in deadline order
   * of what deleting from the unsorted list gives.
   */
  lemma DeleteCommutesWithSort(s: seq<Task>, id: int)
    ensures Without(Sort(s), id) == Sort(Without(s, id))
  {
    SortCorrect(s);
    SortCorrect(Without(s, id));
    WithoutSorted(Sort(s), id);
    forall when ensures DueAt(Without(Sort(s), id), when) == DueAt(Sort(Without(s, id)), when) {
      WithoutDueAt(Sort(s), id, when);
      WithoutDueAt(s, id, when);
    }
    StableSortUnique(Without(Sort(s), id), Sort(Without(s, id)));
  }
}
