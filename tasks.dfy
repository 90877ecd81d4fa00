/**
 * The task entity of the kitchen task store and the list operations the
 * store's actions and selectors are built from: filtering by a predicate
 * (`Array.prototype.filter`), lookup of the first task with an id
 * (`Array.prototype.find`) and the id-directed update (`Array.prototype.map`
 * with an object spread).
 */
module Tasks {

  datatype Option<T> = None | Some(value: T)

  /** The five stations a task can be placed on. */
  datatype TaskType = Front | Back | Oven | Note | Sink

  /** The lifecycle label shown for a task. */
  datatype TaskState = Raw | Cooking | Critical | Burnt

  /** Which half of the kitchen the camera looks at. */
  datatype CameraView = FrontView | BackView

  /**
   * A task. `kind` is the source's `type` field (a reserved word in Dafny);
   * `notes` and `content` are the optional strings; times are milliseconds.
   */
  datatype Task = Task(
    id: string,
    title: string,
    notes: Option<string>,
    content: Option<string>,
    kind: TaskType,
    createdAt: int,
    deadline: int,
    slotId: int)

  /**
   * The argument of `updateTask`: a partial record over title, notes and
   * content, where `None` means the key is absent from the update object.
   */
  datatype TaskPatch = TaskPatch(title: Option<string>, notes: Option<string>, content: Option<string>)

  /** The fields an update may never touch are the same in `a` and `b`. */
  predicate SameIdentity(a: Task, b: Task) {
    a.id == b.id && a.kind == b.kind && a.createdAt == b.createdAt
    && a.deadline == b.deadline && a.slotId == b.slotId
  }

  /** `Array.prototype.filter`: keeps, in order, the elements satisfying `p`. */
  function Filter(s: seq<Task>, p: Task -> bool): (r: seq<Task>)
    ensures |r| <= |s|
    ensures forall x :: x in r <==> x in s && p(x)
  {
    if s == [] then []
    else (if p(s[0]) then [s[0]] else []) + Filter(s[1..], p)
  }

  /** Filtering with a predicate that every element satisfies changes nothing. */
  lemma {:induction false} FilterKeepsAll(s: seq<Task>, p: Task -> bool)
    requires forall x :: x in s ==> p(x)
    ensures Filter(s, p) == s
  {
    if s != [] {
      FilterKeepsAll(s[1..], p);
    }
  }

  /** Filtering distributes over appending one element. */
  lemma {:induction false} FilterAppend(s: seq<Task>, x: Task, p: Task -> bool)
    ensures Filter(s + [x], p) == Filter(s, p) + (if p(x) then [x] else [])
  {
    if s == [] {
      assert [x][1..] == [];
    } else {
      assert (s + [x])[0] == s[0];
      assert (s + [x])[1..] == s[1..] + [x];
      FilterAppend(s[1..], x, p);
    }
  }

  /**
   * Filtering keeps the relative order of what it keeps, so a relation that
   * holds between every earlier and every later element still holds after it.
   */
  lemma {:induction false} FilterKeepsPairwise(s: seq<Task>, p: Task -> bool, rel: (Task, Task) -> bool)
    requires forall i, j :: 0 <= i < j < |s| ==> rel(s[i], s[j])
    ensures forall i, j :: 0 <= i < j < |Filter(s, p)| ==> rel(Filter(s, p)[i], Filter(s, p)[j])
  {
    if s != [] {
      var rest := s[1..];
      assert forall i, j :: 0 <= i < j < |rest| ==> rel(rest[i], rest[j]) by {
        forall i, j | 0 <= i < j < |rest| ensures rel(rest[i], rest[j]) {
          assert rest[i] == s[i + 1] && rest[j] == s[j + 1];
        }
      }
      FilterKeepsPairwise(rest, p, rel);
      var fr := Filter(rest, p);
      if p(s[0]) {
        var r := [s[0]] + fr;
        assert Filter(s, p) == r;
        forall i, j | 0 <= i < j < |r| ensures rel(r[i], r[j]) {
          if i == 0 {
            assert r[j] == fr[j - 1] && fr[j - 1] in rest;
            var k :| 0 <= k < |rest| && rest[k] == fr[j - 1];
            assert rest[k] == s[k + 1];
          } else {
            assert r[i] == fr[i - 1] && r[j] == fr[j - 1];
          }
        }
      } else {
        assert Filter(s, p) == fr;
      }
    }
  }

  function OfKind(kind: TaskType): Task -> bool {
    (t: Task) => t.kind == kind
  }

  function WithoutId(id: string): Task -> bool {
    (t: Task) => t.id != id
  }

  /** The `select*Tasks` selectors: the tasks of one type, in registry order. */
  function FilterKind(tasks: seq<Task>, kind: TaskType): (r: seq<Task>)
    ensures |r| <= |tasks|
    ensures forall t :: t in r <==> t in tasks && t.kind == kind
  {
    Filter(tasks, OfKind(kind))
  }

  /** The registry with every task carrying `id` taken out, order kept. */
  function RemoveId(tasks: seq<Task>, id: string): (r: seq<Task>)
    ensures |r| <= |tasks|
    ensures forall t :: t in r <==> t in tasks && t.id != id
  {
    Filter(tasks, WithoutId(id))
  }

  /** The ids present in the registry. */
  function Ids(tasks: seq<Task>): set<string> {
    set t | t in tasks :: t.id
  }

  /** `tasks.find(t => t.id === id)`: the first task carrying `id`, if any. */
  function FindTask(tasks: seq<Task>, id: string): (r: Option<Task>)
    ensures r.None? <==> id !in Ids(tasks)
    ensures r.Some? ==> r.value.id == id
    ensures r.Some? ==> exists i :: 0 <= i < |tasks| && tasks[i] == r.value
                                    && forall j :: 0 <= j < i ==> tasks[j].id != id
  {
    if tasks == [] then None
    else if tasks[0].id == id then Some(tasks[0])
    else
      var r := FindTask(tasks[1..], id);
      assert r.Some? ==> exists i :: 0 < i < |tasks| && tasks[i] == r.value
                                     && forall j :: 0 <= j < i ==> tasks[j].id != id by {
        if r.Some? {
          var i :| 0 <= i < |tasks[1..]| && tasks[1..][i] == r.value
                   && forall j :: 0 <= j < i ==> tasks[1..][j].id != id;
          assert tasks[i + 1] == r.value;
          forall j | 0 <= j < i + 1 ensures tasks[j].id != id {
            if j > 0 { assert tasks[j] == tasks[1..][j - 1]; }
          }
        }
      }
      assert Ids(tasks) == {tasks[0].id} + Ids(tasks[1..]);
      r
  }

  /** `{ ...t, ...updates }`: each key present in the patch overrides the task's. */
  function ApplyPatch(t: Task, p: TaskPatch): (r: Task)
    ensures SameIdentity(r, t)
    ensures r.title == (if p.title.Some? then p.title.value else t.title)
    ensures r.notes == (if p.notes.Some? then Some(p.notes.value) else t.notes)
    ensures r.content == (if p.content.Some? then Some(p.content.value) else t.content)
  {
    t.(title := if p.title.Some? then p.title.value else t.title,
       notes := if p.notes.Some? then Some(p.notes.value) else t.notes,
       content := if p.content.Some? then Some(p.content.value) else t.content)
  }

  /**
   * `tasks.map(t => t.id === id ? { ...t, ...updates } : t)`: same length and
   * order; tasks with another id are untouched and the identity fields of
   * every task are preserved.
   */
  function UpdateWhere(tasks: seq<Task>, id: string, p: TaskPatch): (r: seq<Task>)
    ensures |r| == |tasks|
    ensures forall i :: 0 <= i < |r| ==> SameIdentity(r[i], tasks[i])
    ensures forall i :: 0 <= i < |r| && tasks[i].id != id ==> r[i] == tasks[i]
    ensures forall i :: 0 <= i < |r| && tasks[i].id == id ==> r[i] == ApplyPatch(tasks[i], p)
  {
    seq(|tasks|, i requires 0 <= i < |tasks| => if tasks[i].id == id then ApplyPatch(tasks[i], p) else tasks[i])
  }

  /** An update naming an id that is not present changes nothing. */
  lemma UpdateAbsentIsNoOp(tasks: seq<Task>, id: string, p: TaskPatch)
    requires id !in Ids(tasks)
    ensures UpdateWhere(tasks, id, p) == tasks
  {
  }

  /** A removal naming an id that is not present changes nothing. */
  lemma RemoveAbsentIsNoOp(tasks: seq<Task>, id: string)
    requires id !in Ids(tasks)
    ensures RemoveId(tasks, id) == tasks
  {
    forall t | t in tasks ensures WithoutId(id)(t) {
      assert t.id in Ids(tasks);
    }
    FilterKeepsAll(tasks, WithoutId(id));
  }
}
