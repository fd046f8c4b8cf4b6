/**
  The records NovaTask Pro keeps in its state: tasks, projects and
  notifications, plus the clock abstraction that replaces `Date`.
 */
module Model {
  import opened Text

  datatype Option<T> = None | Some(value: T) {
    function GetOr(default: T): T {
      match this
      case Some(v) => v
      case None => default
    }
  }

  /** The validation failures the application reports as an error toast. */
  datatype ValidationError =
    | EmptyTaskTitle       // "Please enter a task title"
    | EmptyProjectName     // "Please enter a project name"
    | DuplicateProjectName // "Project already exists"
    | EmptyTag             // "Please enter a tag"
    | DuplicateTag         // "Tag already exists"

  /** An operation either goes through or is refused with a reason and changes nothing. */
  datatype Result<T> = Ok(value: T) | Err(error: ValidationError)

  datatype Outcome = Done | Rejected(error: ValidationError)

  function OutcomeOf<T>(r: Result<T>): Outcome {
    match r
    case Ok(_) => Done
    case Err(e) => Rejected(e)
  }

  const MS_PER_DAY: int := 86400000

  const STATUS_COMPLETED: string := "completed"
  const STATUS_PENDING: string := "pending"
  const INBOX: string := "inbox"
  const FOLDER_ICON: string := "fas fa-folder"
  const DEFAULT_COLOR: string := "#667eea"

  datatype Priority = Urgent | High | Medium | Low

  datatype Subtask = Subtask(title: string, completed: bool)

  /**
    A task. Timestamps are milliseconds since the epoch; `dueDate` is absent
    when the form left it empty.
   */
  datatype Task = Task(
    id: string,
    title: string,
    description: string,
    dueDate: Option<int>,
    priority: Priority,
    project: string,
    status: string,
    tags: seq<string>,
    subtasks: seq<Subtask>,
    createdAt: int,
    updatedAt: int,
    completed: bool)

  /** The flag the code keeps next to the status agrees with it. */
  predicate Consistent(t: Task) {
    t.completed == (t.status == STATUS_COMPLETED)
  }

  predicate AllConsistent(ts: seq<Task>) {
    forall t :: t in ts ==> Consistent(t)
  }

  /** `createdAt` is absent on the built-in projects. */
  datatype Project = Project(
    id: string,
    name: string,
    description: string,
    color: string,
    icon: string,
    createdAt: Option<int>)

  /** No two projects have names that are equal ignoring case. */
  predicate NamesDistinct(ps: seq<Project>) {
    forall i, j :: 0 <= i < j < |ps| ==> Lower(ps[i].name) != Lower(ps[j].name)
  }

  /** The projects a first run starts with. */
  function DefaultProjects(): (ps: seq<Project>)
    ensures |ps| == 4 && ps[0].id == INBOX
    ensures NamesDistinct(ps)
  {
    var ps := [
      Project(INBOX, "Inbox", "Default tasks folder", DEFAULT_COLOR, "fas fa-inbox", None),
      Project("work", "Work", "Work-related tasks", "#4facfe", "fas fa-briefcase", None),
      Project("personal", "Personal", "Personal tasks", "#43e97b", "fas fa-user", None),
      Project("shopping", "Shopping", "Shopping list", "#fa709a", "fas fa-shopping-cart", None)];
    assert Lower(ps[0].name)[0] == 'i' && Lower(ps[1].name)[0] == 'w';
    assert Lower(ps[2].name)[0] == 'p' && Lower(ps[3].name)[0] == 's';
    ps
  }

  datatype NotificationKind = Warning | Success | Info

  datatype Notification = Notification(
    id: int, kind: NotificationKind, title: string, message: string, time: string, read: bool)

  /** The sample notifications the application starts with. */
  function SeedNotifications(): (ns: seq<Notification>)
    ensures |ns| == 3
    ensures forall i, j :: 0 <= i < j < |ns| ==> ns[i].id != ns[j].id
    ensures forall i :: 0 <= i < |ns| ==> (ns[i].read <==> i > 0)
  {
    [Notification(1, Warning, "Task Due Soon", "\"Complete project report\" is due tomorrow", "2 hours ago", false),
     Notification(2, Success, "Task Completed", "\"Buy groceries\" marked as completed", "5 hours ago", true),
     Notification(3, Info, "New Project", "New project \"Website Redesign\" created", "1 day ago", true)]
  }

  /**
    The current instant and the local zone's fixed offset from UTC, both in
    milliseconds. `Day` numbers local calendar days, standing in for
    `toDateString()`.
   */
  datatype Clock = Clock(now: int, utcOffset: int) {
    function Day(t: int): (d: int)
      ensures d * MS_PER_DAY - utcOffset <= t < d * MS_PER_DAY - utcOffset + MS_PER_DAY
    {
      (t + utcOffset) / MS_PER_DAY
    }

    function Today(): int {
      Day(now)
    }

    /** The local midnight that starts day `d`. */
    function Midnight(d: int): int {
      d * MS_PER_DAY - utcOffset
    }
  }

  /** An instant falls on day `d` exactly when it lies in the 24 hours from that day's midnight. */
  lemma DayWindow(clk: Clock, t: int, d: int)
    ensures clk.Day(t) == d <==> clk.Midnight(d) <= t < clk.Midnight(d) + MS_PER_DAY
  {
    var x := t + clk.utcOffset;
    assert clk.Midnight(d) <= t < clk.Midnight(d) + MS_PER_DAY <==> d * MS_PER_DAY <= x < d * MS_PER_DAY + MS_PER_DAY;
    if d * MS_PER_DAY <= x < d * MS_PER_DAY + MS_PER_DAY {
      assert x - d * MS_PER_DAY == x % MS_PER_DAY + (x / MS_PER_DAY - d) * MS_PER_DAY;
    }
  }

  /** JavaScript truthiness of an optional string: present and non-empty. */
  predicate Truthy(s: Option<string>) {
    s.Some? && s.value != ""
  }
}
