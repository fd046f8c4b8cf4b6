/**
  The edits NovaTask Pro makes to its task list, project list and tag draft,
  as functions from the old list to the new one. `Store` performs them in
  place; the lemmas here say what they mean.
 */
module TaskList {
  import opened Text
  import opened Seqs
  import opened Model

  /** `tasks.findIndex(t => t.id === id)`: the first index holding `id`, or -1. */
  function FindIndex(ts: seq<Task>, id: string): (r: int)
    ensures -1 <= r < |ts|
    ensures r == -1 <==> forall j :: 0 <= j < |ts| ==> ts[j].id != id
    ensures r >= 0 ==> ts[r].id == id && forall j :: 0 <= j < r ==> ts[j].id != id
  {
    if ts == [] then -1
    else if ts[0].id == id then 0
    else
      var k := FindIndex(ts[1..], id);
      if k == -1 then -1 else k + 1
  }

  function Ids(ts: seq<Task>): (r: seq<string>)
    ensures |r| == |ts| && forall i :: 0 <= i < |ts| ==> r[i] == ts[i].id
  {
    seq(|ts|, i requires 0 <= i < |ts| => ts[i].id)
  }

  /** `ts` without the element at index `i`: the effect of `splice(i, 1)`. */
  function RemoveAt<T>(s: seq<T>, i: int): (r: seq<T>)
    requires 0 <= i < |s|
    ensures |r| == |s| - 1
    ensures forall j :: 0 <= j < i ==> r[j] == s[j]
    ensures forall j :: i <= j < |r| ==> r[j] == s[j + 1]
  {
    s[..i] + s[i + 1..]
  }

  // ---------------------------------------------------------------- quick add

  /** The delay after which a quick-added task falls due: one day. */
  const QUICK_DUE_DELAY: int := MS_PER_DAY

  /** `addQuickTask`: put a fresh medium-priority inbox task at the front of the list. */
  function AddQuickTask(ts: seq<Task>, input: string, id: string, now: int): (r: Result<seq<Task>>)
    ensures r.Err? <==> Trim(input) == []
    ensures r.Err? ==> r.error == EmptyTaskTitle
    ensures r.Ok? ==> |r.value| == |ts| + 1 && r.value[1..] == ts
    ensures r.Ok? ==>
      var t := r.value[0];
      && t.id == id && t.title == Trim(input) && t.title != []
      && t.description == "" && t.dueDate == Some(now + QUICK_DUE_DELAY)
      && t.priority == Medium && t.project == INBOX
      && t.status == STATUS_PENDING && !t.completed
      && t.tags == [] && t.subtasks == []
      && t.createdAt == now && t.updatedAt == now
    ensures r.Ok? && AllConsistent(ts) ==> AllConsistent(r.value)
  {
    var title := Trim(input);
    if title == [] then Err(EmptyTaskTitle)
    else
      var task := Task(id, title, "", Some(now + QUICK_DUE_DELAY), Medium, INBOX, STATUS_PENDING,
                       [], [], now, now, false);
      Ok([task] + ts)
  }

  // ---------------------------------------------------------------- full save

  /** What the task form holds when "save" is pressed. */
  datatype TaskForm = TaskForm(
    title: string,
    description: string,
    dueDate: Option<int>,
    priority: Priority,
    project: string,
    status: string,
    tags: seq<string>,
    subtasks: seq<Subtask>)

  /** `saveTask` edits the task named by `currentTaskId` when that is set, else creates one. */
  predicate IsNewTask(currentTaskId: Option<string>) {
    !Truthy(currentTaskId)
  }

  /** The record `saveTask` builds from the form. */
  function SavedRecord(ts: seq<Task>, currentTaskId: Option<string>, form: TaskForm, newId: string, now: int): (t: Task)
    ensures t.title == Trim(form.title) && t.description == Trim(form.description)
    ensures t.dueDate == form.dueDate && t.priority == form.priority && t.project == form.project
    ensures t.status == form.status && t.tags == form.tags && t.subtasks == form.subtasks
    ensures Consistent(t) && t.updatedAt == now
    ensures IsNewTask(currentTaskId) ==> t.id == newId && t.createdAt == now
    ensures !IsNewTask(currentTaskId) ==> t.id == currentTaskId.value
    ensures !IsNewTask(currentTaskId) && FindIndex(ts, currentTaskId.value) >= 0 ==>
              t.createdAt == ts[FindIndex(ts, currentTaskId.value)].createdAt
  {
    var isNew := IsNewTask(currentTaskId);
    var id := if isNew then newId else currentTaskId.value;
    var createdAt :=
      if isNew then now
      else
        var i := FindIndex(ts, id);
        if i >= 0 then ts[i].createdAt else now;
    Task(id, Trim(form.title), Trim(form.description), form.dueDate, form.priority, form.project,
         form.status, form.tags, form.subtasks, createdAt, now, form.status == STATUS_COMPLETED)
  }

  /**
    `saveTask`: insert a new task at the front, or replace the edited one where
    it stands. A blank title is refused, and only a blank title.
   */
  function SaveTask(ts: seq<Task>, currentTaskId: Option<string>, form: TaskForm, newId: string, now: int)
    : (r: Result<seq<Task>>)
    ensures r.Err? <==> Trim(form.title) == []
    ensures r.Err? ==> r.error == EmptyTaskTitle
    ensures r.Ok? && IsNewTask(currentTaskId) ==> |r.value| == |ts| + 1
    ensures r.Ok? && !IsNewTask(currentTaskId) ==> |r.value| == |ts|
  {
    var task := SavedRecord(ts, currentTaskId, form, newId, now);
    if task.title == [] then Err(EmptyTaskTitle)
    else if IsNewTask(currentTaskId) then Ok([task] + ts)
    else
      var i := FindIndex(ts, currentTaskId.value);
      if i == -1 then Ok(ts) else Ok(ts[i := task])
  }

  /** With no task open, the saved record goes to the front and the rest of the list is untouched. */
  lemma SaveTaskInsertsNew(ts: seq<Task>, currentTaskId: Option<string>, form: TaskForm, newId: string, now: int)
    requires IsNewTask(currentTaskId) && Trim(form.title) != []
    ensures var r := SaveTask(ts, currentTaskId, form, newId, now);
            r.Ok? && |r.value| == |ts| + 1 && r.value[1..] == ts
    ensures SaveTask(ts, currentTaskId, form, newId, now).value[0] == SavedRecord(ts, currentTaskId, form, newId, now)
    ensures var t := SaveTask(ts, currentTaskId, form, newId, now).value[0];
            t.id == newId && t.title == Trim(form.title) && t.createdAt == now && t.updatedAt == now
  {
    var rec := SavedRecord(ts, currentTaskId, form, newId, now);
    assert SaveTask(ts, currentTaskId, form, newId, now) == Ok([rec] + ts);
  }

  /**
    With a task open, the saved record replaces it where it stands and keeps
    its creation time; if that task has meanwhile been deleted nothing changes.
   */
  lemma SaveTaskReplacesOpen(ts: seq<Task>, currentTaskId: Option<string>, form: TaskForm, newId: string, now: int)
    requires !IsNewTask(currentTaskId) && Trim(form.title) != []
    ensures var r := SaveTask(ts, currentTaskId, form, newId, now);
            r.Ok? && |r.value| == |ts|
    ensures var r := SaveTask(ts, currentTaskId, form, newId, now);
            FindIndex(ts, currentTaskId.value) == -1 ==> r.value == ts
    ensures var r := SaveTask(ts, currentTaskId, form, newId, now);
            var i := FindIndex(ts, currentTaskId.value);
            i >= 0 ==>
              && r.value[i] == SavedRecord(ts, currentTaskId, form, newId, now)
              && r.value[i].id == currentTaskId.value
              && r.value[i].title == Trim(form.title)
              && r.value[i].createdAt == ts[i].createdAt
              && r.value[i].updatedAt == now
              && forall j :: 0 <= j < |ts| && j != i ==> r.value[j] == ts[j]
  {
    var rec := SavedRecord(ts, currentTaskId, form, newId, now);
    var i := FindIndex(ts, currentTaskId.value);
    var r := SaveTask(ts, currentTaskId, form, newId, now);
    assert rec.title == Trim(form.title) != [];
    if i >= 0 {
      assert r == Ok(ts[i := rec]);
      ReplacedAt(ts, i, rec);
    } else {
      assert r == Ok(ts);
    }
  }

  /** Assigning one slot changes that slot and no other. */
  lemma ReplacedAt<T>(s: seq<T>, i: int, x: T)
    requires 0 <= i < |s|
    ensures |s[i := x]| == |s| && s[i := x][i] == x
    ensures forall j :: 0 <= j < |s| && j != i ==> s[i := x][j] == s[j]
  {
  }

  /** Saving keeps `completed` in step with `status` across the whole list. */
  lemma SaveTaskKeepsConsistent(ts: seq<Task>, currentTaskId: Option<string>, form: TaskForm, newId: string, now: int)
    requires AllConsistent(ts)
    ensures var r := SaveTask(ts, currentTaskId, form, newId, now);
            r.Ok? ==> AllConsistent(r.value)
  {
    var r := SaveTask(ts, currentTaskId, form, newId, now);
    var rec := SavedRecord(ts, currentTaskId, form, newId, now);
    if r.Ok? {
      if IsNewTask(currentTaskId) {
        assert r.value == [rec] + ts;
        PrependedConsistent(ts, rec);
      } else {
        var i := FindIndex(ts, currentTaskId.value);
        if i >= 0 {
          assert r.value == ts[i := rec];
          ReplacedConsistent(ts, i, rec);
        } else {
          assert r.value == ts;
        }
      }
    }
  }

  lemma PrependedConsistent(ts: seq<Task>, rec: Task)
    requires AllConsistent(ts) && Consistent(rec)
    ensures AllConsistent([rec] + ts)
  {
    assert forall t :: t in [rec] + ts ==> t == rec || t in ts;
  }

  /** Replacing one task by a consistent one keeps a consistent list consistent. */
  lemma ReplacedConsistent(ts: seq<Task>, i: int, rec: Task)
    requires 0 <= i < |ts| && Consistent(rec) && AllConsistent(ts)
    ensures AllConsistent(ts[i := rec])
  {
    forall t | t in ts[i := rec] ensures Consistent(t) {
      var j :| 0 <= j < |ts| && ts[i := rec][j] == t;
      if j != i {
        assert ts[j] in ts;
      }
    }
  }

  // ---------------------------------------------------------------- delete

  function HasOtherId(id: string): Task -> bool {
    (t: Task) => t.id != id
  }

  /** `tasks.filter(task => task.id !== id)`, as both delete paths do it. */
  function RemoveTask(ts: seq<Task>, id: string): (r: seq<Task>)
    ensures |r| <= |ts|
    ensures forall t :: t in r <==> t in ts && t.id != id
  {
    Filter(ts, HasOtherId(id))
  }

  /** Deleting removes every task with that id and nothing else, keeping the order of the rest. */
  lemma RemoveTaskSpec(ts: seq<Task>, id: string)
    ensures Subseq(RemoveTask(ts, id), ts)
    ensures forall t :: t in RemoveTask(ts, id) ==> t.id != id
    ensures forall t: Task :: multiset(RemoveTask(ts, id))[t] == if t.id == id then 0 else multiset(ts)[t]
    ensures FindIndex(ts, id) == -1 ==> RemoveTask(ts, id) == ts
    ensures FindIndex(ts, id) >= 0 ==> |RemoveTask(ts, id)| < |ts|
    ensures AllConsistent(ts) ==> AllConsistent(RemoveTask(ts, id))
  {
    var r := RemoveTask(ts, id);
    FilterIsSubseq(ts, HasOtherId(id));
    forall t: Task ensures multiset(r)[t] == if t.id == id then 0 else multiset(ts)[t] {
      FilterMultiplicity(ts, HasOtherId(id), t);
    }
    if FindIndex(ts, id) == -1 {
      FilterKeepsAll(ts, HasOtherId(id));
    } else {
      FilterDropsSome(ts, HasOtherId(id), FindIndex(ts, id));
    }
  }

  // ---------------------------------------------------------------- completion toggle

  /** The task after its checkbox is ticked or cleared. */
  function Toggled(t: Task, now: int): (u: Task)
    ensures u.completed == !t.completed && Consistent(u)
    ensures u.status == if u.completed then STATUS_COMPLETED else STATUS_PENDING
    ensures u.id == t.id && u.updatedAt == now
    ensures u == t.(completed := u.completed, status := u.status, updatedAt := now)
  {
    var done := !t.completed;
    t.(completed := done, status := if done then STATUS_COMPLETED else STATUS_PENDING, updatedAt := now)
  }

  /**
    `toggleTaskCompletion`: flip the task and move it to the end of the list
    when it is now completed, to the front when it is now pending.
   */
  function ToggleTaskCompletion(ts: seq<Task>, id: string, now: int): (r: seq<Task>)
    ensures |r| == |ts|
    ensures multiset(Ids(r)) == multiset(Ids(ts))
    ensures FindIndex(ts, id) == -1 ==> r == ts
    ensures FindIndex(ts, id) >= 0 ==>
              var i := FindIndex(ts, id);
              var u := Toggled(ts[i], now);
              if u.completed then r[|r| - 1] == u && r[..|r| - 1] == RemoveAt(ts, i)
              else r[0] == u && r[1..] == RemoveAt(ts, i)
    ensures AllConsistent(ts) ==> AllConsistent(r)
  {
    var i := FindIndex(ts, id);
    if i == -1 then ts
    else
      var u := Toggled(ts[i], now);
      var rest := RemoveAt(ts, i);
      var r := if u.completed then rest + [u] else [u] + rest;
      IdsMoved(ts, i, u, r);
      r
  }

  /** Taking one task out and putting a same-id task back at either end keeps the multiset of ids. */
  lemma IdsMoved(ts: seq<Task>, i: int, u: Task, r: seq<Task>)
    requires 0 <= i < |ts| && u.id == ts[i].id
    requires r == RemoveAt(ts, i) + [u] || r == [u] + RemoveAt(ts, i)
    ensures multiset(Ids(r)) == multiset(Ids(ts))
  {
    var a, b := ts[..i], ts[i + 1..];
    assert ts == a + [ts[i]] + b;
    IdsAppend(a, [ts[i]]);
    IdsAppend(a + [ts[i]], b);
    assert Ids([ts[i]]) == [u.id] == Ids([u]);
    IdsAppend(a, b);
    if r == RemoveAt(ts, i) + [u] {
      IdsAppend(a + b, [u]);
    } else {
      IdsAppend([u], a + b);
    }
  }

  lemma IdsAppend(a: seq<Task>, b: seq<Task>)
    ensures Ids(a + b) == Ids(a) + Ids(b)
  {
  }

  /**
    Toggling the same task twice, when no other task shares its id, restores
    its flag and, for a task whose status is pending or completed and agrees
    with its `completed` flag, the whole task except `updatedAt`. A pending
    task ends at the front, a completed one at the end, with the other tasks
    in their original order. (With a second task of the same id, the second
    toggle finds whichever comes first after the move.)
   */
  lemma ToggleTwice(ts: seq<Task>, id: string, now1: int, now2: int)
    requires FindIndex(ts, id) >= 0
    requires forall j :: 0 <= j < |ts| && j != FindIndex(ts, id) ==> ts[j].id != id
    ensures
      var i := FindIndex(ts, id);
      var t := ts[i];
      var r := ToggleTaskCompletion(ToggleTaskCompletion(ts, id, now1), id, now2);
      var back := t.(status := if t.completed then STATUS_COMPLETED else STATUS_PENDING, updatedAt := now2);
      && |r| == |ts|
      && (t.completed ==> r[|r| - 1] == back && r[..|r| - 1] == RemoveAt(ts, i))
      && (!t.completed ==> r[0] == back && r[1..] == RemoveAt(ts, i))
      && (Consistent(t) && (t.status == STATUS_PENDING || t.status == STATUS_COMPLETED) ==> back == t.(updatedAt := now2))
  {
    var i := FindIndex(ts, id);
    var t := ts[i];
    var u := Toggled(t, now1);
    var once := ToggleTaskCompletion(ts, id, now1);
    var k := ToggledAt(ts, id, now1);
    assert once[k] == u;
    var v := Toggled(u, now2);
    assert v == t.(status := if t.completed then STATUS_COMPLETED else STATUS_PENDING, updatedAt := now2);
  }

  /**
    After one toggle of a task whose id no other task shares, the task is found where it was
    moved to, and taking it out again leaves the other tasks in their order.
   */
  lemma ToggledAt(ts: seq<Task>, id: string, now: int) returns (k: int)
    requires FindIndex(ts, id) >= 0
    requires forall j :: 0 <= j < |ts| && j != FindIndex(ts, id) ==> ts[j].id != id
    ensures var once := ToggleTaskCompletion(ts, id, now);
            && k == (if Toggled(ts[FindIndex(ts, id)], now).completed then |once| - 1 else 0)
            && FindIndex(once, id) == k
            && once[k] == Toggled(ts[FindIndex(ts, id)], now)
            && RemoveAt(once, k) == RemoveAt(ts, FindIndex(ts, id))
  {
    var i := FindIndex(ts, id);
    var u := Toggled(ts[i], now);
    var rest := RemoveAt(ts, i);
    var once := ToggleTaskCompletion(ts, id, now);
    forall j | 0 <= j < |rest| ensures rest[j].id != id {
      if j < i {
        assert rest[j] == ts[j];
      } else {
        assert rest[j] == ts[j + 1];
      }
    }
    if u.completed {
      k := |once| - 1;
      assert once == rest + [u];
      assert forall j :: 0 <= j < |rest| ==> once[j] == rest[j];
      assert RemoveAt(once, k) == rest;
    } else {
      k := 0;
      assert once == [u] + rest;
      assert RemoveAt(once, 0) == rest;
    }
  }

  // ---------------------------------------------------------------- projects

  /** Some project's name equals `name` ignoring case. */
  predicate NameTaken(ps: seq<Project>, name: string) {
    exists p :: p in ps && Lower(p.name) == Lower(name)
  }

  /** `createProject`: append a project unless the name is blank or already used, ignoring case. */
  function CreateProject(ps: seq<Project>, name: string, description: string, color: string, id: string, now: int)
    : (r: Result<seq<Project>>)
    ensures r.Err? ==> r.error == EmptyProjectName || r.error == DuplicateProjectName
    ensures r.Ok? ==> |r.value| == |ps| + 1 && r.value[|ps|].name == Trim(name) && r.value[|ps|].color == color
  {
    var trimmed := Trim(name);
    if trimmed == [] then Err(EmptyProjectName)
    else if exists p :: p in ps && Lower(p.name) == Lower(trimmed) then Err(DuplicateProjectName)
    else Ok(ps + [Project(id, trimmed, Trim(description), color, FOLDER_ICON, Some(now))])
  }

  /**
    A blank name and a name already taken (ignoring case) are refused; any other
    name adds one project at the end, and project names stay distinct.
   */
  lemma CreateProjectSpec(ps: seq<Project>, name: string, description: string, color: string, id: string, now: int)
    ensures var r := CreateProject(ps, name, description, color, id, now);
            Trim(name) == [] ==> r == Err(EmptyProjectName)
    ensures var r := CreateProject(ps, name, description, color, id, now);
            Trim(name) != [] && NameTaken(ps, Trim(name)) ==> r == Err(DuplicateProjectName)
    ensures var r := CreateProject(ps, name, description, color, id, now);
            r.Ok? <==> Trim(name) != [] && !NameTaken(ps, Trim(name))
    ensures var r := CreateProject(ps, name, description, color, id, now);
            r.Ok? ==>
              && |r.value| == |ps| + 1 && r.value[..|ps|] == ps
              && r.value[|ps|] == Project(id, Trim(name), Trim(description), color, FOLDER_ICON, Some(now))
    ensures var r := CreateProject(ps, name, description, color, id, now);
            r.Ok? && NamesDistinct(ps) ==> NamesDistinct(r.value)
  {
    var trimmed := Trim(name);
    if trimmed != [] && !NameTaken(ps, trimmed) {
      var added := Project(id, trimmed, Trim(description), color, FOLDER_ICON, Some(now));
      var after := ps + [added];
      assert CreateProject(ps, name, description, color, id, now) == Ok(after);
      assert after[..|ps|] == ps;
      if NamesDistinct(ps) {
        AppendedNamesDistinct(ps, added);
      }
    }
  }

  /** Appending a project whose name no listed project has (ignoring case) keeps names distinct. */
  lemma AppendedNamesDistinct(ps: seq<Project>, added: Project)
    requires NamesDistinct(ps) && !NameTaken(ps, added.name)
    ensures NamesDistinct(ps + [added])
  {
    var after := ps + [added];
    forall i, j | 0 <= i < j < |after| ensures Lower(after[i].name) != Lower(after[j].name) {
      if j == |ps| {
        assert after[i] in ps;
      }
    }
  }

  /** Once a name is in the list, a second project whose name differs only in case is refused. */
  lemma {:induction false} CreateProjectRejectsCaseVariant(ps: seq<Project>, first: string, second: string,
                                                         description: string, color: string, id1: string,
                                                         id2: string, now1: int, now2: int)
    requires CreateProject(ps, first, description, color, id1, now1).Ok?
    requires Lower(Trim(second)) == Lower(Trim(first))
    ensures CreateProject(CreateProject(ps, first, description, color, id1, now1).value,
                          second, description, color, id2, now2) == Err(DuplicateProjectName)
  {
    CreateProjectSpec(ps, first, description, color, id1, now1);
    var after := CreateProject(ps, first, description, color, id1, now1).value;
    var added := after[|ps|];
    assert added in after && Lower(added.name) == Lower(Trim(second));
  }

  // ---------------------------------------------------------------- tag draft

  predicate NoDuplicates(tags: seq<string>) {
    forall i, j :: 0 <= i < j < |tags| ==> tags[i] != tags[j]
  }

  /**
    What `getCurrentTags` reads from the tag elements whose texts are `texts`:
    each text trimmed, in document order.
   */
  function RenderedTags(texts: seq<string>): (r: seq<string>)
    ensures |r| == |texts| && forall i :: 0 <= i < |texts| ==> r[i] == Trim(texts[i])
  {
    seq(|texts|, i requires 0 <= i < |texts| => Trim(texts[i]))
  }

  /**
    `addTag`: append an element holding the trimmed entry, unless it is blank or
    equal to the trimmed text of an element already shown.
   */
  function AddTag(texts: seq<string>, input: string): (r: Result<seq<string>>)
    ensures Trim(input) == [] ==> r == Err(EmptyTag)
    ensures Trim(input) != [] && Trim(input) in RenderedTags(texts) ==> r == Err(DuplicateTag)
    ensures r.Ok? <==> Trim(input) != [] && Trim(input) !in RenderedTags(texts)
    ensures r.Ok? ==> |r.value| == |texts| + 1 && r.value[..|texts|] == texts && r.value[|texts|] == Trim(input)
  {
    var tag := Trim(input);
    if tag == [] then Err(EmptyTag)
    else if tag in RenderedTags(texts) then Err(DuplicateTag)
    else
      var r := texts + [tag];
      assert r[..|texts|] == texts;
      Ok(r)
  }

  /**
    After an accepted `addTag`, `getCurrentTags` returns what it returned before
    followed by the trimmed entry, and still holds no duplicate.
   */
  lemma {:induction false} AddTagReadBack(texts: seq<string>, input: string)
    requires AddTag(texts, input).Ok?
    ensures RenderedTags(AddTag(texts, input).value) == RenderedTags(texts) + [Trim(input)]
    ensures NoDuplicates(RenderedTags(texts)) ==> NoDuplicates(RenderedTags(AddTag(texts, input).value))
  {
    var tag := Trim(input);
    var after := AddTag(texts, input).value;
    assert after == texts + [tag];
    TrimIdempotent(input);
    RenderedTagsAppend(texts, tag);
    var shown := RenderedTags(texts);
    if NoDuplicates(shown) {
      forall i, j | 0 <= i < j < |shown| + 1 ensures (shown + [tag])[i] != (shown + [tag])[j] {
        if j == |shown| {
          assert shown[i] in shown;
        }
      }
    }
  }

  lemma RenderedTagsAppend(texts: seq<string>, text: string)
    ensures RenderedTags(texts + [text]) == RenderedTags(texts) + [Trim(text)]
  {
    var all := texts + [text];
    var read, expected := RenderedTags(all), RenderedTags(texts) + [Trim(text)];
    assert |read| == |expected|;
    forall i | 0 <= i < |read| ensures read[i] == expected[i] {
      if i < |texts| {
        assert all[i] == texts[i] && expected[i] == RenderedTags(texts)[i];
      } else {
        assert all[i] == text && expected[i] == Trim(text);
      }
    }
    assert read == expected;
  }

  /**
    Saving stores what `getCurrentTags` returns, and reopening renders exactly
    those tags: reading them back then gives the same list again.
   */
  lemma {:induction false} RenderedTagsIdempotent(texts: seq<string>)
    ensures RenderedTags(RenderedTags(texts)) == RenderedTags(texts)
  {
    forall i | 0 <= i < |texts| ensures Trim(Trim(texts[i])) == Trim(texts[i]) {
      TrimIdempotent(texts[i]);
    }
  }
}
