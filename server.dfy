/**
 * The in-memory task store behind the four routes of the task-list server:
 * list, create, toggle completion and delete. The HTTP layer is replaced by
 * the Outcome datatype; each route handler becomes one method of TaskStore,
 * specified by pure functions over the sequence of tasks.
 */
module Server {
  import opened Wrappers

  /** A task record. `text` is None when the request body carried no `text`. */
  datatype Task = Task(id: int, text: Option<string>, completed: bool)

  /** What a handler reports in place of its HTTP response. */
  datatype Outcome = Created(task: Task) | Toggled(task: Task) | NotFound | Deleted

  /**
   * The strict equality `task.id === taskId` of the handlers. An id parameter
   * that did not parse (NaN, here None) equals no task's id.
   */
  predicate Matches(t: Task, id: Option<int>)
  {
    id.Some? && t.id == id.value
  }

  /** No two tasks share an id: what the store is meant to keep. */
  predicate UniqueIds(s: seq<Task>)
  {
    forall i, j | 0 <= i < j < |s| :: s[i].id != s[j].id
  }

  /** The three tasks the store holds when the process starts. */
  function Seed(): (s: seq<Task>)
    ensures |s| == 3
    ensures forall i | 0 <= i < |s| :: s[i].id == i + 1 && !s[i].completed
    ensures UniqueIds(s)
  {
    [ Task(1, Some("Learn React"), false),
      Task(2, Some("Learn Node.js"), false),
      Task(3, Some("Build a project"), false) ]
  }

  // ---------------------------------------------------------------- create

  /** The task a create request appends: its id is the current length plus one. */
  function NewTask(s: seq<Task>, text: Option<string>): Task
  {
    Task(|s| + 1, text, false)
  }

  /** The store after a series of create requests, one per text, in order. */
  function CreateAll(s: seq<Task>, texts: seq<Option<string>>): seq<Task>
    decreases |texts|
  {
    if |texts| == 0 then s else CreateAll(s + [NewTask(s, texts[0])], texts[1..])
  }

  /**
   * After any series of creates the store holds the earlier tasks untouched,
   * followed by exactly the created tasks in request order, each one not
   * completed and numbered by its position.
   */
  lemma {:induction false} CreatesInOrder(s: seq<Task>, texts: seq<Option<string>>)
    ensures |CreateAll(s, texts)| == |s| + |texts|
    ensures CreateAll(s, texts)[..|s|] == s
    ensures forall i | 0 <= i < |texts| ::
              CreateAll(s, texts)[|s| + i] == Task(|s| + i + 1, texts[i], false)
    decreases |texts|
  {
    if |texts| > 0 {
      var s1 := s + [NewTask(s, texts[0])];
      CreatesInOrder(s1, texts[1..]);
      var r := CreateAll(s, texts);
      assert r == CreateAll(s1, texts[1..]);
      assert r[..|s|] == r[..|s1|][..|s|];
      forall i | 0 <= i < |texts|
        ensures r[|s| + i] == Task(|s| + i + 1, texts[i], false)
      {
        if i == 0 {
          assert r[|s|] == r[..|s1|][|s|];
        } else {
          assert r[|s1| + (i - 1)] == Task(|s1| + (i - 1) + 1, texts[1..][i - 1], false);
        }
      }
    }
  }

  /**
   * The length-based id is fresh as long as every id lies in 1..|s|, which
   * holds for the seed and after creates and toggles, but not after deletes.
   */
  lemma CreateKeepsIdsUnique(s: seq<Task>, text: Option<string>)
    requires UniqueIds(s)
    requires forall i | 0 <= i < |s| :: 1 <= s[i].id <= |s|
    ensures UniqueIds(s + [NewTask(s, text)])
  {
  }

  // ---------------------------------------------------------------- toggle

  /**
   * The `findIndex` of the toggle handler: the position of the first task
   * whose id matches, or -1 when none does.
   */
  function FindIndex(s: seq<Task>, id: Option<int>): (r: int)
    ensures -1 <= r < |s|
    ensures r == -1 <==> forall i | 0 <= i < |s| :: !Matches(s[i], id)
    ensures r != -1 ==> Matches(s[r], id) && forall i | 0 <= i < r :: !Matches(s[i], id)
  {
    if |s| == 0 then -1
    else if Matches(s[0], id) then 0
    else
      var r' := FindIndex(s[1..], id);
      if r' == -1 then -1 else r' + 1
  }

  /** The same task with `completed` inverted. */
  function Flip(t: Task): Task
  {
    t.(completed := !t.completed)
  }

  /**
   * The tasks after a toggle request: only the first task with the id changes,
   * and in it only `completed`, which is inverted.
   */
  function AfterToggle(s: seq<Task>, id: Option<int>): (r: seq<Task>)
    ensures |r| == |s|
    ensures forall i | 0 <= i < |s| :: r[i].id == s[i].id && r[i].text == s[i].text
    ensures forall i | 0 <= i < |s| :: r[i].completed != s[i].completed <==> i == FindIndex(s, id)
    ensures forall i | 0 <= i < |s| && i != FindIndex(s, id) :: r[i] == s[i]
    ensures (forall i | 0 <= i < |s| :: !Matches(s[i], id)) ==> r == s
  {
    var k := FindIndex(s, id);
    if k == -1 then s else s[k := Flip(s[k])]
  }

  /**
   * What a toggle request reports: the updated task when some task has the id,
   * and NotFound exactly when none has.
   */
  function ToggleOutcome(s: seq<Task>, id: Option<int>): (o: Outcome)
    ensures o == NotFound <==> forall i | 0 <= i < |s| :: !Matches(s[i], id)
    ensures o != NotFound ==>
              o == Toggled(AfterToggle(s, id)[FindIndex(s, id)]) && Matches(o.task, id)
  {
    var k := FindIndex(s, id);
    if k == -1 then NotFound else Toggled(Flip(s[k]))
  }

  /** A NaN id never finds a task: the toggle reports NotFound and changes nothing. */
  lemma ToggleNaN(s: seq<Task>)
    ensures AfterToggle(s, None) == s
    ensures ToggleOutcome(s, None) == NotFound
  {
  }

  /** The search for an id looks only at the ids of the tasks. */
  lemma FindIndexSameIds(s: seq<Task>, s': seq<Task>, id: Option<int>)
    requires |s| == |s'|
    requires forall i | 0 <= i < |s| :: s[i].id == s'[i].id
    ensures FindIndex(s, id) == FindIndex(s', id)
  {
  }

  /**
   * Toggling the same id twice restores the original tasks, and the second
   * toggle reports the task as it was before the first.
   */
  lemma ToggleTwice(s: seq<Task>, id: Option<int>)
    ensures AfterToggle(AfterToggle(s, id), id) == s
    ensures FindIndex(s, id) != -1 ==>
              ToggleOutcome(AfterToggle(s, id), id) == Toggled(s[FindIndex(s, id)])
  {
  }

  // ---------------------------------------------------------------- delete

  /**
   * The `filter` of the delete handler: the tasks whose id does not match,
   * in their original order.
   */
  function Without(s: seq<Task>, id: Option<int>): (r: seq<Task>)
    ensures |r| <= |s|
    ensures forall t :: t in r <==> t in s && !Matches(t, id)
  {
    if |s| == 0 then []
    else
      assert s == [s[0]] + s[1..];
      (if Matches(s[0], id) then [] else [s[0]]) + Without(s[1..], id)
  }

  /** Filtering distributes over concatenation, so the kept tasks stay in order. */
  lemma {:induction false} WithoutSplits(a: seq<Task>, b: seq<Task>, id: Option<int>)
    ensures Without(a + b, id) == Without(a, id) + Without(b, id)
  {
    if |a| == 0 {
      assert a + b == b;
    } else {
      assert (a + b)[1..] == a[1..] + b;
      WithoutSplits(a[1..], b, id);
    }
  }

  /** When no task has the id, a delete leaves the tasks as they were. */
  lemma {:induction false} WithoutKeepsUnmatched(s: seq<Task>, id: Option<int>)
    requires forall i | 0 <= i < |s| :: !Matches(s[i], id)
    ensures Without(s, id) == s
  {
    if |s| > 0 {
      WithoutKeepsUnmatched(s[1..], id);
      assert s == [s[0]] + s[1..];
    }
  }

  /** Deleting an id twice gives the same tasks as deleting it once. */
  lemma {:induction false} DeleteIdempotent(s: seq<Task>, id: Option<int>)
    ensures Without(Without(s, id), id) == Without(s, id)
  {
    var r := Without(s, id);
    forall i | 0 <= i < |r| ensures !Matches(r[i], id) {
      assert r[i] in r;
    }
    WithoutKeepsUnmatched(r, id);
  }

  /** A delete never introduces a duplicate id. */
  lemma {:induction false} DeleteKeepsIdsUnique(s: seq<Task>, id: Option<int>)
    requires UniqueIds(s)
    ensures UniqueIds(Without(s, id))
  {
    if |s| > 0 {
      var tail := s[1..];
      assert UniqueIds(tail) by {
        forall i, j | 0 <= i < j < |tail| ensures tail[i].id != tail[j].id {
          assert tail[i] == s[i + 1] && tail[j] == s[j + 1];
        }
      }
      DeleteKeepsIdsUnique(tail, id);
      var rest := Without(tail, id);
      if !Matches(s[0], id) {
        forall j | 0 <= j < |rest| ensures s[0].id != rest[j].id {
          assert rest[j] in rest;
          var k :| 0 <= k < |tail| && tail[k] == rest[j];
          assert s[k + 1] == rest[j];
        }
        var r := [s[0]] + rest;
        assert Without(s, id) == r;
        forall i, j | 0 <= i < j < |r| ensures r[i].id != r[j].id {
          if i == 0 {
            assert r[j] == rest[j - 1];
          } else {
            assert r[i] == rest[i - 1] && r[j] == rest[j - 1];
          }
        }
      }
    }
  }

  /**
   * When the ids are 1..n in order, deleting an id k in that range removes
   * exactly the k-th task and keeps the others in order.
   */
  lemma {:induction false} DeleteFromNumbered(s: seq<Task>, k: int)
    requires forall i | 0 <= i < |s| :: s[i].id == i + 1
    requires 1 <= k <= |s|
    ensures Without(s, Some(k)) == s[..k - 1] + s[k..]
  {
    var id := Some(k);
    var pre, mid, post := s[..k - 1], s[k - 1..k], s[k..];
    assert s == (pre + mid) + post;
    WithoutSplits(pre + mid, post, id);
    WithoutSplits(pre, mid, id);
    forall i | 0 <= i < |pre| ensures !Matches(pre[i], id) {
      assert pre[i] == s[i];
    }
    WithoutKeepsUnmatched(pre, id);
    forall i | 0 <= i < |post| ensures !Matches(post[i], id) {
      assert post[i] == s[k + i];
    }
    WithoutKeepsUnmatched(post, id);
    assert mid == [s[k - 1]];
    assert Without(mid, id) == [] + Without(mid[1..], id);
  }

  /**
   * The id defect: when the ids are 1..n in order and a task other than the
   * last is deleted, the next create assigns id n, which the last remaining
   * task already has.
   */
  lemma DeleteThenCreateCollides(s: seq<Task>, k: int, text: Option<string>)
    requires forall i | 0 <= i < |s| :: s[i].id == i + 1
    requires 1 <= k < |s|
    ensures |Without(s, Some(k))| == |s| - 1
    ensures NewTask(Without(s, Some(k)), text).id == |s|
    ensures Without(s, Some(k))[|s| - 2] == s[|s| - 1]
    ensures !UniqueIds(Without(s, Some(k)) + [NewTask(Without(s, Some(k)), text)])
  {
    DeleteFromNumbered(s, k);
    var after := Without(s, Some(k));
    assert after[|s| - 2] == s[k..][|s| - 1 - k] == s[|s| - 1];
    var r := after + [NewTask(after, text)];
    assert r[|s| - 2] == after[|s| - 2];
    assert r[|s| - 2].id == r[|s| - 1].id;
  }

  /** From the seed, deleting id 1 and then creating yields a second task with id 3. */
  lemma SeedDeleteOneThenCreate(text: Option<string>)
    ensures Without(Seed(), Some(1)) == Seed()[1..]
    ensures NewTask(Without(Seed(), Some(1)), text) == Task(3, text, false)
    ensures Without(Seed(), Some(1))[1].id == 3
  {
  }

  // ---------------------------------------------------------------- the store

  /** The module-level `tasks` array and the four route handlers over it. */
  class TaskStore {
    var tasks: seq<Task>

    /** The store as the process starts: the three seed tasks. */
    constructor ()
      ensures tasks == Seed()
    {
      tasks := Seed();
    }

    /** GET: the tasks as they are, in insertion order, without changing them. */
    method List() returns (r: seq<Task>)
      ensures r == tasks
    {
      r := tasks;
    }

    /** POST: append a task numbered by the current length and report it. */
    method Create(text: Option<string>) returns (o: Outcome)
      modifies this
      ensures o == Created(Task(|old(tasks)| + 1, text, false))
      ensures tasks == old(tasks) + [o.task]
    {
      var t := NewTask(tasks, text);
      tasks := tasks + [t];
      o := Created(t);
    }

    /** PUT: invert `completed` of the first task with the id, or report NotFound. */
    method Toggle(id: Option<int>) returns (o: Outcome)
      modifies this
      ensures tasks == AfterToggle(old(tasks), id)
      ensures o == ToggleOutcome(old(tasks), id)
    {
      var k := FindIndex(tasks, id);
      if k != -1 {
        tasks := tasks[k := tasks[k].(completed := !tasks[k].completed)];
        o := Toggled(tasks[k]);
      } else {
        o := NotFound;
      }
    }

    /** DELETE: drop every task with the id; reports Deleted whether or not one matched. */
    method Delete(id: Option<int>) returns (o: Outcome)
      modifies this
      ensures tasks == Without(old(tasks), id)
      ensures o == Deleted
    {
      tasks := Without(tasks, id);
      o := Deleted;
    }
  }

  /** Creating on the fresh store appends task 4 after the seed. */
  method CreateOnSeed()
  {
    var store := new TaskStore();
    var o := store.Create(Some("Write spec"));
    assert o == Created(Task(4, Some("Write spec"), false));
    var all := store.List();
    assert all == Seed() + [Task(4, Some("Write spec"), false)];
  }

  /** Toggling id 2 of the seed twice: completed, then not completed again. */
  method ToggleSeedTwice()
  {
    var store := new TaskStore();
    var o := store.Toggle(Some(2));
    assert o == Toggled(Task(2, Some("Learn Node.js"), true));
    o := store.Toggle(Some(2));
    ToggleTwice(Seed(), Some(2));
    assert store.tasks == Seed();
    assert o == Toggled(Task(2, Some("Learn Node.js"), false));
  }

  /** Toggling an id no task has reports NotFound and changes nothing. */
  method ToggleSeedMissing()
  {
    var store := new TaskStore();
    var o := store.Toggle(Some(999));
    assert o == NotFound && store.tasks == Seed();
  }

  /** Deleting id 1 twice, then creating: the new task repeats id 3. */
  method DeleteSeedThenCreate()
  {
    var store := new TaskStore();
    var o := store.Delete(Some(1));
    SeedDeleteOneThenCreate(Some("Write spec"));
    DeleteIdempotent(Seed(), Some(1));
    o := store.Delete(Some(1));
    assert o == Deleted && store.tasks == Seed()[1..];
    o := store.Create(Some("Write spec"));
    assert o == Created(Task(3, Some("Write spec"), false));
    assert store.tasks[1].id == store.tasks[2].id == 3;
  }
}
