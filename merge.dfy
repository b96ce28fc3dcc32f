/**
 * The merge step of `save_tasks`: each incoming task overwrites, in place, the
 * first stored task with the same name, or is appended when no stored task has
 * that name.
 */
module Merge {
  import opened Wrappers
  import opened Model

  /** The names that occur in a task list. */
  function Names(s: seq<Task>): set<string>
  {
    set k | 0 <= k < |s| :: s[k].name
  }

  /** No two tasks of the list share a name. */
  predicate DistinctNames(s: seq<Task>)
  {
    forall i, j :: 0 <= i < j < |s| ==> s[i].name != s[j].name
  }

  /** `iter_mut().find(|t| t.name == name)`: the index of the first task with this name. */
  function FindByName(s: seq<Task>, name: string): (r: Option<nat>)
    ensures r.Some? ==> r.value < |s| && s[r.value].name == name
    ensures r.Some? ==> forall k :: 0 <= k < r.value ==> s[k].name != name
    ensures r.None? <==> name !in Names(s)
  {
    if s == [] then None
    else if s[0].name == name then Some(0)
    else
      var r := FindByName(s[1..], name);
      assert name in Names(s[1..]) ==> name in Names(s) by {
        if name in Names(s[1..]) {
          var k :| 0 <= k < |s[1..]| && s[1..][k].name == name;
          assert s[k + 1].name == name;
        }
      }
      assert name in Names(s) ==> name in Names(s[1..]) by {
        if name in Names(s) {
          var k :| 0 <= k < |s| && s[k].name == name;
          assert k > 0 && s[1..][k - 1].name == name;
        }
      }
      if r.Some? then Some(r.value + 1) else None
  }

  /** One merge step for the incoming task `t`. */
  function Upsert(s: seq<Task>, t: Task): seq<Task>
  {
    var i := FindByName(s, t.name);
    if i.Some? then s[i.value := t] else s + [t]
  }

  /** The merged list: the incoming tasks applied in their order. */
  function MergeAll(current: seq<Task>, incoming: seq<Task>): seq<Task>
    decreases |incoming|
  {
    if incoming == [] then current
    else Upsert(MergeAll(current, incoming[..|incoming| - 1]), incoming[|incoming| - 1])
  }

  /** What a reader finds under a name: the first task that carries it. */
  function Lookup(s: seq<Task>, name: string): Option<Task>
  {
    var i := FindByName(s, name);
    if i.Some? then Some(s[i.value]) else None
  }

  /** The last incoming task with this name, if any. */
  function LastWithName(incoming: seq<Task>, name: string): (r: Option<Task>)
    ensures r.Some? ==> r.value.name == name
    decreases |incoming|
  {
    if incoming == [] then None
    else if incoming[|incoming| - 1].name == name then Some(incoming[|incoming| - 1])
    else LastWithName(incoming[..|incoming| - 1], name)
  }

  /**
   * One step keeps every position and its name, changes at most the first task
   * named like `t` (into `t`), and appends `t` exactly when its name was absent.
   */
  lemma UpsertShape(s: seq<Task>, t: Task)
    ensures |Upsert(s, t)| == |s| + (if t.name in Names(s) then 0 else 1)
    ensures forall k :: 0 <= k < |s| ==> Upsert(s, t)[k].name == s[k].name
    ensures forall k :: 0 <= k < |s| ==> Upsert(s, t)[k] == s[k] || (Upsert(s, t)[k] == t && s[k].name == t.name)
    ensures t.name !in Names(s) ==> Upsert(s, t)[|s|] == t
    ensures Names(Upsert(s, t)) == Names(s) + {t.name}
  {
    var r := Upsert(s, t);
    var i := FindByName(s, t.name);
    if i.Some? {
      forall n | n in Names(r) ensures n in Names(s) + {t.name} {
        var k :| 0 <= k < |r| && r[k].name == n;
        assert k != i.value ==> r[k] == s[k];
      }
      forall n | n in Names(s) + {t.name} ensures n in Names(r) {
        if n != t.name {
          var k :| 0 <= k < |s| && s[k].name == n;
          assert r[k].name == n;
        } else {
          assert r[i.value].name == n;
        }
      }
    } else {
      forall n | n in Names(r) ensures n in Names(s) + {t.name} {
        var k :| 0 <= k < |r| && r[k].name == n;
        assert k < |s| ==> r[k] == s[k];
      }
      forall n | n in Names(s) + {t.name} ensures n in Names(r) {
        if n != t.name {
          var k :| 0 <= k < |s| && s[k].name == n;
          assert r[k].name == n;
        } else {
          assert r[|s|].name == n;
        }
      }
    }
  }

  /** After one step, `t` is what a reader finds under its name; other names are unaffected. */
  lemma UpsertLookup(s: seq<Task>, t: Task, n: string)
    ensures Lookup(Upsert(s, t), n) == if n == t.name then Some(t) else Lookup(s, n)
  {
    var r := Upsert(s, t);
    UpsertShape(s, t);
    var i := FindByName(s, t.name);
    var j := FindByName(r, n);
    if n == t.name {
      var p := if i.Some? then i.value else |s|;
      assert r[p] == t;
      assert forall k :: 0 <= k < p ==> r[k].name != n;
      assert j.Some? && j.value == p;
    } else {
      var js := FindByName(s, n);
      if js.Some? {
        assert r[js.value] == s[js.value];
        assert forall k :: 0 <= k < js.value ==> r[k].name != n;
        assert j.Some? && j.value == js.value;
      }
    }
  }

  /** One step keeps the names distinct. */
  lemma UpsertDistinct(s: seq<Task>, t: Task)
    requires DistinctNames(s)
    ensures DistinctNames(Upsert(s, t))
  {
    UpsertShape(s, t);
    var r := Upsert(s, t);
    if t.name !in Names(s) {
      forall k | 0 <= k < |s| ensures r[k].name != r[|s|].name {
        assert s[k].name in Names(s);
      }
    }
  }

  /**
   * Every stored task keeps its position and its name; it is replaced only when
   * an incoming task carries that name. Tasks past the stored ones are incoming
   * tasks whose names were not stored.
   */
  lemma {:induction false} MergePositions(current: seq<Task>, incoming: seq<Task>)
    ensures |MergeAll(current, incoming)| >= |current|
    ensures forall k :: 0 <= k < |current| ==> MergeAll(current, incoming)[k].name == current[k].name
    ensures forall k :: 0 <= k < |current| ==>
      MergeAll(current, incoming)[k] == current[k] || MergeAll(current, incoming)[k] in incoming
    ensures forall k :: |current| <= k < |MergeAll(current, incoming)| ==>
      MergeAll(current, incoming)[k] in incoming && MergeAll(current, incoming)[k].name !in Names(current)
    decreases |incoming|
  {
    if incoming != [] {
      var front := incoming[..|incoming| - 1];
      var t := incoming[|incoming| - 1];
      MergePositions(current, front);
      var m := MergeAll(current, front);
      UpsertShape(m, t);
      assert forall x :: x in front ==> x in incoming;
      MergeNames(current, front);
      assert t.name !in Names(m) ==> t.name !in Names(current);
    }
  }

  /** The merged list holds exactly the stored and the incoming names. */
  lemma {:induction false} MergeNames(current: seq<Task>, incoming: seq<Task>)
    ensures Names(MergeAll(current, incoming)) == Names(current) + Names(incoming)
    decreases |incoming|
  {
    if incoming != [] {
      var front := incoming[..|incoming| - 1];
      var t := incoming[|incoming| - 1];
      MergeNames(current, front);
      UpsertNames(MergeAll(current, front), t);
      NamesLast(incoming);
    }
  }

  /** The names of a non-empty list: those before its last task, and the last task's. */
  lemma NamesLast(s: seq<Task>)
    requires s != []
    ensures Names(s) == Names(s[..|s| - 1]) + {s[|s| - 1].name}
  {
    var front := s[..|s| - 1];
    forall n | n in Names(s) ensures n in Names(front) + {s[|s| - 1].name} {
      var k :| 0 <= k < |s| && s[k].name == n;
      assert k < |front| ==> front[k] == s[k];
    }
    forall n | n in Names(front) ensures n in Names(s) {
      var k :| 0 <= k < |front| && front[k].name == n;
      assert s[k].name == n;
    }
  }

  /** Last writer wins: under a name, a reader finds the last incoming task, else the stored one. */
  lemma {:induction false} MergeLookup(current: seq<Task>, incoming: seq<Task>, n: string)
    ensures Lookup(MergeAll(current, incoming), n) ==
      if LastWithName(incoming, n).Some? then LastWithName(incoming, n) else Lookup(current, n)
    decreases |incoming|
  {
    if incoming != [] {
      var front := incoming[..|incoming| - 1];
      MergeLookup(current, front, n);
      UpsertLookup(MergeAll(current, front), incoming[|incoming| - 1], n);
    }
  }

  /** The list grows by the number of incoming names that were not stored. */
  lemma {:induction false} MergeLength(current: seq<Task>, incoming: seq<Task>)
    ensures |MergeAll(current, incoming)| == |current| + |Names(incoming) - Names(current)|
    decreases |incoming|
  {
    if incoming == [] {
      assert Names(incoming) == {};
    } else {
      var front := incoming[..|incoming| - 1];
      var t := incoming[|incoming| - 1];
      var m := MergeAll(current, front);
      assert MergeAll(current, incoming) == Upsert(m, t);
      MergeLength(current, front);
      MergeNames(current, front);
      UpsertLength(m, t);
      NamesLast(incoming);
      LengthStep(|current|, |m|, |Upsert(m, t)|, Names(front), Names(current), t.name);
    }
  }

  /** The counting step of `MergeLength`, on plain sizes and sets. */
  lemma LengthStep(c: nat, m: nat, u: nat, front: set<string>, stored: set<string>, x: string)
    requires m == c + |front - stored|
    requires u == m + (if x in stored + front then 0 else 1)
    ensures u == c + |(front + {x}) - stored|
  {
    if x in front || x in stored {
      assert (front + {x}) - stored == front - stored;
    } else {
      assert (front + {x}) - stored == (front - stored) + {x};
    }
  }

  lemma UpsertNames(s: seq<Task>, t: Task)
    ensures Names(Upsert(s, t)) == Names(s) + {t.name}
  {
    UpsertShape(s, t);
  }

  lemma UpsertLength(s: seq<Task>, t: Task)
    ensures |Upsert(s, t)| == |s| + (if t.name in Names(s) then 0 else 1)
  {
    UpsertShape(s, t);
  }

  /** Distinct stored names stay distinct after the merge. */
  lemma {:induction false} MergeDistinct(current: seq<Task>, incoming: seq<Task>)
    requires DistinctNames(current)
    ensures DistinctNames(MergeAll(current, incoming))
    decreases |incoming|
  {
    if incoming != [] {
      var front := incoming[..|incoming| - 1];
      MergeDistinct(current, front);
      UpsertDistinct(MergeAll(current, front), incoming[|incoming| - 1]);
    }
  }

  /** Lists with the same names at the same positions find a shared name at the same index. */
  lemma FindSameNames(a: seq<Task>, b: seq<Task>, n: string)
    requires |a| <= |b| && forall k :: 0 <= k < |a| ==> b[k].name == a[k].name
    requires n in Names(a)
    ensures FindByName(b, n) == FindByName(a, n)
  {
    var i := FindByName(a, n).value;
    assert b[i].name == n;
    assert n in Names(b);
    var j := FindByName(b, n).value;
    assert j == i;
  }

  /**
   * Exactly which stored tasks change: the first stored task of each name that
   * some incoming task carries becomes the last incoming task of that name;
   * every other stored task is kept as it was.
   */
  lemma {:induction false} MergeExact(current: seq<Task>, incoming: seq<Task>, k: nat)
    requires k < |current|
    ensures |MergeAll(current, incoming)| >= |current|
    ensures MergeAll(current, incoming)[k] ==
      if FindByName(current, current[k].name) == Some(k) && LastWithName(incoming, current[k].name).Some?
      then LastWithName(incoming, current[k].name).value
      else current[k]
    decreases |incoming|
  {
    MergePositions(current, incoming);
    if incoming != [] {
      var front := incoming[..|incoming| - 1];
      var t := incoming[|incoming| - 1];
      var m := MergeAll(current, front);
      MergeExact(current, front, k);
      MergePositions(current, front);
      UpsertShape(m, t);
      var n := current[k].name;
      assert n in Names(current);
      FindSameNames(current, m, n);
      if n == t.name {
        var p := FindByName(m, n).value;
        assert Upsert(m, t)[p] == t;
        assert p != k ==> Upsert(m, t)[k] == m[k];
      } else {
        assert Upsert(m, t)[k] == m[k] by {
          var i := FindByName(m, t.name);
          assert i.Some? ==> m[i.value].name != n;
        }
      }
    }
  }

  /** Saving the same tasks twice leaves the same list as saving them once. */
  lemma MergeIdempotent(current: seq<Task>, incoming: seq<Task>)
    ensures MergeAll(MergeAll(current, incoming), incoming) == MergeAll(current, incoming)
  {
    var r := MergeAll(current, incoming);
    var s := MergeAll(r, incoming);
    MergeLength(r, incoming);
    MergeNames(current, incoming);
    assert Names(incoming) - Names(r) == {};
    forall k | 0 <= k < |r| ensures s[k] == r[k] {
      MergeExact(r, incoming, k);
      var n := r[k].name;
      if FindByName(r, n) == Some(k) && LastWithName(incoming, n).Some? {
        MergeLookup(current, incoming, n);
      }
    }
  }

  /** Merged with a new name, `[A, B]` becomes `[A, B, C]`; with a new version of `A`, `[A', B]`. */
  lemma MergeExamples(a: Task, a': Task, b: Task, c: Task)
    requires a.name != b.name && c.name != a.name && c.name != b.name && a'.name == a.name
    ensures MergeAll([a, b], [c]) == [a, b, c]
    ensures MergeAll([a, b], [a']) == [a', b]
  {
    assert [c][..0] == [] && [a'][..0] == [];
    assert FindByName([a, b], c.name) == None;
  }

  /**
   * The names the merge appends, independently of it: each incoming name that
   * is not stored, once, at its first occurrence, in input order.
   */
  function NewNames(current: seq<Task>, incoming: seq<Task>): seq<string>
    decreases |incoming|
  {
    if incoming == [] then []
    else
      var seen := NewNames(current, incoming[..|incoming| - 1]);
      var n := incoming[|incoming| - 1].name;
      if n in Names(current) || n in seen then seen else seen + [n]
  }

  /** The new names are exactly the incoming names not stored, each once. */
  lemma {:induction false} NewNamesSpec(current: seq<Task>, incoming: seq<Task>)
    ensures forall x :: x in NewNames(current, incoming) <==> x in Names(incoming) && x !in Names(current)
    ensures forall i, j :: 0 <= i < j < |NewNames(current, incoming)| ==>
      NewNames(current, incoming)[i] != NewNames(current, incoming)[j]
    decreases |incoming|
  {
    if incoming != [] {
      NewNamesSpec(current, incoming[..|incoming| - 1]);
      NamesLast(incoming);
    }
  }

  /**
   * The appended tail, in order: past the stored tasks, the merged list holds
   * one task per new name, in the order of `NewNames`, and each is the last
   * incoming task of its name.
   */
  lemma {:induction false} MergeTail(current: seq<Task>, incoming: seq<Task>)
    ensures |MergeAll(current, incoming)| == |current| + |NewNames(current, incoming)|
    ensures forall j :: 0 <= j < |NewNames(current, incoming)| ==>
      MergeAll(current, incoming)[|current| + j].name == NewNames(current, incoming)[j]
    ensures forall j :: 0 <= j < |NewNames(current, incoming)| ==>
      && LastWithName(incoming, NewNames(current, incoming)[j]).Some?
      && MergeAll(current, incoming)[|current| + j] == LastWithName(incoming, NewNames(current, incoming)[j]).value
    decreases |incoming|
  {
    if incoming != [] {
      var front := incoming[..|incoming| - 1];
      MergeTail(current, front);
      NewNamesSpec(current, front);
      MergePositions(current, front);
      MergeNames(current, front);
      TailStep(current, incoming);
    }
  }

  /** The inductive step of `MergeTail`: the last incoming task applied to the merge of the others. */
  lemma TailStep(current: seq<Task>, incoming: seq<Task>)
    requires incoming != []
    requires
      var front := incoming[..|incoming| - 1];
      var m := MergeAll(current, front);
      var f := NewNames(current, front);
      && |m| == |current| + |f|
      && (forall j :: 0 <= j < |f| ==> m[|current| + j].name == f[j])
      && (forall j :: 0 <= j < |f| ==> LastWithName(front, f[j]).Some? && m[|current| + j] == LastWithName(front, f[j]).value)
      && (forall x :: x in f <==> x in Names(front) && x !in Names(current))
      && (forall i, j :: 0 <= i < j < |f| ==> f[i] != f[j])
      && (forall k :: 0 <= k < |current| ==> m[k].name == current[k].name)
      && Names(m) == Names(current) + Names(front)
    ensures
      var u := MergeAll(current, incoming);
      var g := NewNames(current, incoming);
      && |u| == |current| + |g|
      && (forall j :: 0 <= j < |g| ==> u[|current| + j].name == g[j])
      && (forall j :: 0 <= j < |g| ==> LastWithName(incoming, g[j]).Some? && u[|current| + j] == LastWithName(incoming, g[j]).value)
  {
    var front := incoming[..|incoming| - 1];
    var t := incoming[|incoming| - 1];
    var m := MergeAll(current, front);
    var f := NewNames(current, front);
    assert MergeAll(current, incoming) == Upsert(m, t);
    UpsertShape(m, t);
    if t.name in Names(m) {
      assert t.name in Names(current) || t.name in f;
      assert NewNames(current, incoming) == f;
      var p := FindByName(m, t.name).value;
      assert Upsert(m, t) == m[p := t];
      forall j | 0 <= j < |f| && f[j] == t.name
        ensures p == |current| + j
      {
        SlotOfName(current, m, f, t.name, p, j);
      }
      forall j | 0 <= j < |f| && f[j] != t.name
        ensures LastWithName(incoming, f[j]) == LastWithName(front, f[j])
      {
      }
    } else {
      assert t.name !in Names(current) && t.name !in f;
      assert NewNames(current, incoming) == f + [t.name];
      forall j | 0 <= j < |f|
        ensures LastWithName(incoming, f[j]) == LastWithName(front, f[j])
      {
        assert m[|current| + j].name == f[j];
      }
    }
  }

  /** A new name sits in the tail at its place in the new names and nowhere else. */
  lemma SlotOfName(current: seq<Task>, m: seq<Task>, f: seq<string>, name: string, p: nat, j: nat)
    requires |m| == |current| + |f|
    requires forall k :: 0 <= k < |current| ==> m[k].name == current[k].name
    requires forall j :: 0 <= j < |f| ==> m[|current| + j].name == f[j]
    requires forall i, j :: 0 <= i < j < |f| ==> f[i] != f[j]
    requires name !in Names(current)
    requires p < |m| && m[p].name == name
    requires j < |f| && f[j] == name
    ensures p == |current| + j
  {
    if p >= |current| {
      assert f[p - |current|] == name;
    }
  }

  /** `merged_tasks.iter_mut().find(..)` followed by overwrite or `push`, for each incoming task. */
  method MergeTasks(current: seq<Task>, tasks: seq<Task>) returns (merged: seq<Task>)
    ensures merged == MergeAll(current, tasks)
  {
    merged := current;
    var i := 0;
    while i < |tasks|
      invariant 0 <= i <= |tasks|
      invariant merged == MergeAll(current, tasks[..i])
    {
      var task := tasks[i];
      var j := 0;
      while j < |merged| && merged[j].name != task.name
        invariant 0 <= j <= |merged|
        invariant forall k :: 0 <= k < j ==> merged[k].name != task.name
      {
        j := j + 1;
      }
      ghost var found := FindByName(merged, task.name);
      if j < |merged| {
        assert found.Some? && found.value == j;
        merged := merged[j := task];
      } else {
        assert task.name !in Names(merged);
        merged := merged + [task];
      }
      assert tasks[..i + 1][..i] == tasks[..i];
      i := i + 1;
    }
    assert tasks[..|tasks|] == tasks;
  }
}
