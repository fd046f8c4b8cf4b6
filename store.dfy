/**
  The mutable part of `NovaTaskPro`: the task and project lists it edits in
  place, the id of the task open in the editor, and the tag draft of that
  editor. Every method changes only what its `modifies` clause names, and its
  new state is the one the matching function of `TaskList` computes.
 */
module Store {
  import opened Text
  import opened Seqs
  import opened Model
  import opened TaskList

  class NovaTaskPro {
    var tasks: seq<Task>
    var projects: seq<Project>
    var currentTaskId: Option<string>
    var selectedColor: string
    var notifications: seq<Notification>

    /** Start from what storage held, falling back to an empty task list and the built-in projects. */
    constructor (storedTasks: Option<seq<Task>>, storedProjects: Option<seq<Project>>)
      ensures tasks == storedTasks.GetOr([])
      ensures projects == storedProjects.GetOr(DefaultProjects())
      ensures currentTaskId == None && selectedColor == DEFAULT_COLOR
      ensures notifications == SeedNotifications()
    {
      tasks := storedTasks.GetOr([]);
      projects := storedProjects.GetOr(DefaultProjects());
      currentTaskId := None;
      selectedColor := DEFAULT_COLOR;
      notifications := SeedNotifications();
    }

    /** `openTaskModal`: remember which task the editor shows; an unknown id leaves the editor closed. */
    method OpenTaskModal(taskId: Option<string>)
      modifies this`currentTaskId
      ensures Truthy(taskId) && FindIndex(tasks, taskId.value) == -1 ==> currentTaskId == old(currentTaskId)
      ensures Truthy(taskId) && FindIndex(tasks, taskId.value) >= 0 ==> currentTaskId == taskId
      ensures !Truthy(taskId) ==> currentTaskId == None
    {
      if Truthy(taskId) {
        if FindIndex(tasks, taskId.value) == -1 {
          return;
        }
        currentTaskId := taskId;
      } else {
        currentTaskId := None;
      }
    }

    /** `addQuickTask` */
    method AddQuickTask(input: string, id: string, now: int) returns (outcome: Outcome)
      modifies this`tasks
      ensures var r := TaskList.AddQuickTask(old(tasks), input, id, now);
              outcome == OutcomeOf(r) && tasks == if r.Ok? then r.value else old(tasks)
    {
      var title := Trim(input);
      if title == [] {
        return Rejected(EmptyTaskTitle);
      }
      var task := Task(id, title, "", Some(now + QUICK_DUE_DELAY), Medium, INBOX, STATUS_PENDING,
                       [], [], now, now, false);
      tasks := [task] + tasks;
      outcome := Done;
    }

    /** `saveTask`: the form's contents, with `newId` used only when no task is open. */
    method SaveTask(form: TaskForm, newId: string, now: int) returns (outcome: Outcome)
      modifies this`tasks
      ensures var r := TaskList.SaveTask(old(tasks), old(currentTaskId), form, newId, now);
              outcome == OutcomeOf(r) && tasks == if r.Ok? then r.value else old(tasks)
    {
      var ts, cur := tasks, currentTaskId;
      var task := SavedRecord(ts, cur, form, newId, now);
      if task.title == [] {
        return Rejected(EmptyTaskTitle);
      }
      if IsNewTask(cur) {
        tasks := [task] + ts;
      } else {
        var index := FindIndex(ts, cur.value);
        if index != -1 {
          tasks := ts[index := task];
        }
      }
      outcome := Done;
    }

    /** `deleteTask`: remove the task open in the editor once the user confirms. */
    method DeleteTask(confirmed: bool)
      modifies this`tasks
      ensures Truthy(currentTaskId) && confirmed ==> tasks == RemoveTask(old(tasks), currentTaskId.value)
      ensures !(Truthy(currentTaskId) && confirmed) ==> tasks == old(tasks)
    {
      if !Truthy(currentTaskId) {
        return;
      }
      if !confirmed {
        return;
      }
      tasks := RemoveTask(tasks, currentTaskId.value);
    }

    /** The delete button on a task in the list: remove that task once the user confirms. */
    method DeleteListedTask(id: string, confirmed: bool)
      modifies this`tasks
      ensures confirmed ==> tasks == RemoveTask(old(tasks), id)
      ensures !confirmed ==> tasks == old(tasks)
    {
      if confirmed {
        tasks := RemoveTask(tasks, id);
      }
    }

    /** `toggleTaskCompletion`: flip the task, splice it out, then push or unshift it. */
    method ToggleTaskCompletion(taskId: string, now: int)
      modifies this`tasks
      ensures tasks == TaskList.ToggleTaskCompletion(old(tasks), taskId, now)
    {
      var taskIndex := FindIndex(tasks, taskId);
      if taskIndex == -1 {
        return;
      }
      var task := Toggled(tasks[taskIndex], now);
      tasks := tasks[..taskIndex] + tasks[taskIndex + 1..];
      if task.completed {
        tasks := tasks + [task];
      } else {
        tasks := [task] + tasks;
      }
    }

    /** `createProject`, coloured with the colour currently selected in the dialog. */
    method CreateProject(name: string, description: string, id: string, now: int) returns (outcome: Outcome)
      modifies this`projects
      ensures var r := TaskList.CreateProject(old(projects), name, description, old(selectedColor), id, now);
              outcome == OutcomeOf(r) && projects == if r.Ok? then r.value else old(projects)
    {
      var ps, color := projects, selectedColor;
      var trimmed := Trim(name);
      if trimmed == [] {
        return Rejected(EmptyProjectName);
      }
      if exists p :: p in ps && Lower(p.name) == Lower(trimmed) {
        return Rejected(DuplicateProjectName);
      }
      var project := Project(id, trimmed, Trim(description), color, FOLDER_ICON, Some(now));
      projects := ps + [project];
      outcome := Done;
    }
  }

  /**
    The tag container of the task editor. `texts` holds the text of each tag
    element in document order; what `getCurrentTags` returns, and what `addTag`
    checks for duplicates, is that text trimmed.
   */
  class TagDraft {
    var texts: seq<string>

    /** An emptied container. */
    constructor ()
      ensures texts == []
    {
      texts := [];
    }

    /** `renderTags`: replace the container's elements by one per tag of the task, in order. */
    method RenderTags(taskTags: seq<string>)
      modifies this
      ensures texts == taskTags
    {
      texts := [];
      var i := 0;
      while i < |taskTags|
        invariant 0 <= i <= |taskTags|
        invariant texts == taskTags[..i]
      {
        texts := texts + [taskTags[i]];
        i := i + 1;
        assert taskTags[..i] == taskTags[..i - 1] + [taskTags[i - 1]];
      }
      assert taskTags[..i] == taskTags;
    }

    /** `addTag` */
    method AddTag(input: string) returns (outcome: Outcome)
      modifies this
      ensures var r := TaskList.AddTag(old(texts), input);
              outcome == OutcomeOf(r) && texts == if r.Ok? then r.value else old(texts)
    {
      var tag := Trim(input);
      if tag == [] {
        return Rejected(EmptyTag);
      }
      var existingTags := GetCurrentTags();
      if tag in existingTags {
        return Rejected(DuplicateTag);
      }
      texts := texts + [tag];
      outcome := Done;
    }

    /** A tag's remove icon, once its fade-out delay has passed. */
    method RemoveTag(index: nat)
      requires index < |texts|
      modifies this
      ensures texts == RemoveAt(old(texts), index)
    {
      texts := texts[..index] + texts[index + 1..];
    }

    /** `getCurrentTags`: the trimmed text of every tag element, in order. */
    method GetCurrentTags() returns (tags: seq<string>)
      ensures tags == RenderedTags(texts)
    {
      tags := [];
      var i := 0;
      while i < |texts|
        invariant 0 <= i <= |texts|
        invariant tags == RenderedTags(texts[..i])
      {
        RenderedTagsAppend(texts[..i], texts[i]);
        assert texts[..i + 1] == texts[..i] + [texts[i]];
        tags := tags + [Trim(texts[i])];
        i := i + 1;
      }
      assert texts[..i] == texts;
    }
  }
}
