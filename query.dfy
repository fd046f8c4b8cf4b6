/**
  What the task list shows: `filterTasks`, a chain of filters over a copy of
  the task list, and `sortTasks`, the comparator the list is sorted with.
 */
module Query {
  import opened Text
  import opened Seqs
  import opened Model

  /** The sidebar entry in use. Any view name the switch does not list filters nothing. */
  datatype View = Dashboard | InboxView | TodayView | UpcomingView | CompletedView | ProjectView | OtherView

  /** The three drop-down filters; `None` is the `'all'` setting. */
  datatype Filters = Filters(priority: Option<Priority>, status: Option<string>, project: Option<string>)

  /** The part of the application state the list depends on. */
  datatype ViewState = ViewState(view: View, currentProject: Option<string>, searchQuery: string, filters: Filters)

  const NO_FILTERS: Filters := Filters(None, None, None)

  // ---------------------------------------------------------------- the predicates each stage filters by

  function InProject(project: string): Task -> bool {
    (t: Task) => t.project == project
  }

  function HasStatus(status: string): Task -> bool {
    (t: Task) => t.status == status
  }

  function HasPriority(priority: Priority): Task -> bool {
    (t: Task) => t.priority == priority
  }

  /** Due on the clock's current local day. */
  function DueToday(clk: Clock): Task -> bool {
    (t: Task) => t.dueDate.Some? && clk.Day(t.dueDate.value) == clk.Today()
  }

  /** Due strictly after the instant `now`. */
  function DueAfter(now: int): Task -> bool {
    (t: Task) => t.dueDate.Some? && t.dueDate.value > now
  }

  /** The title, the description or one of the tags contains `query` once lower-cased. */
  predicate MatchesSearch(t: Task, query: string) {
    || Contains(Lower(t.title), query)
    || Contains(Lower(t.description), query)
    || exists tag :: tag in t.tags && Contains(Lower(tag), query)
  }

  function Matches(query: string): Task -> bool {
    (t: Task) => MatchesSearch(t, query)
  }

  // ---------------------------------------------------------------- the pipeline as the code runs it

  /** The `switch` on the current view. */
  function ViewFilter(ts: seq<Task>, vs: ViewState, clk: Clock): (r: seq<Task>)
    ensures |r| <= |ts| && forall t :: t in r ==> t in ts
  {
    match vs.view
    case Dashboard => ts
    case InboxView => Filter(ts, InProject(INBOX))
    case TodayView => Filter(ts, DueToday(clk))
    case UpcomingView => Filter(ts, DueAfter(clk.now))
    case CompletedView => Filter(ts, HasStatus(STATUS_COMPLETED))
    case ProjectView => if Truthy(vs.currentProject) then Filter(ts, InProject(vs.currentProject.value)) else ts
    case OtherView => ts
  }

  /** The search box, applied only when it is non-empty; the query is lower-cased but not trimmed. */
  function SearchFilter(ts: seq<Task>, searchQuery: string): (r: seq<Task>)
    ensures |r| <= |ts| && forall t :: t in r ==> t in ts
  {
    if searchQuery != "" then Filter(ts, Matches(Lower(searchQuery))) else ts
  }

  /** The priority, status and project drop-downs, each skipped when set to all. */
  function DropDownFilters(ts: seq<Task>, f: Filters): (r: seq<Task>)
    ensures |r| <= |ts| && forall t :: t in r ==> t in ts
  {
    var byPriority := if f.priority.Some? then Filter(ts, HasPriority(f.priority.value)) else ts;
    var byStatus := if f.status.Some? then Filter(byPriority, HasStatus(f.status.value)) else byPriority;
    if f.project.Some? then Filter(byStatus, InProject(f.project.value)) else byStatus
  }

  /** `filterTasks`: the view, then the search box, then the drop-downs. */
  function FilterTasks(ts: seq<Task>, vs: ViewState, clk: Clock): (r: seq<Task>)
    ensures |r| <= |ts| && forall t :: t in r ==> t in ts
  {
    DropDownFilters(SearchFilter(ViewFilter(ts, vs, clk), vs.searchQuery), vs.filters)
  }

  // ---------------------------------------------------------------- what a listed task satisfies

  /** The view's condition on a single task. */
  predicate InView(vs: ViewState, clk: Clock, t: Task) {
    match vs.view
    case InboxView => t.project == INBOX
    case TodayView => t.dueDate.Some? && clk.Day(t.dueDate.value) == clk.Today()
    case UpcomingView => t.dueDate.Some? && t.dueDate.value > clk.now
    case CompletedView => t.status == STATUS_COMPLETED
    case ProjectView => !Truthy(vs.currentProject) || t.project == vs.currentProject.value
    case Dashboard => true
    case OtherView => true
  }

  /** An empty search box keeps every task; otherwise the lower-cased query must occur. */
  predicate SearchOk(query: string, t: Task) {
    query == "" || MatchesSearch(t, Lower(query))
  }

  predicate FiltersOk(f: Filters, t: Task) {
    && (f.priority.None? || t.priority == f.priority.value)
    && (f.status.None? || t.status == f.status.value)
    && (f.project.None? || t.project == f.project.value)
  }

  /** A task is listed exactly when it passes the view, the search and every drop-down. */
  function Selected(vs: ViewState, clk: Clock): Task -> bool {
    (t: Task) => InView(vs, clk, t) && SearchOk(vs.searchQuery, t) && FiltersOk(vs.filters, t)
  }

  /**
    The listed tasks are the tasks of the list that pass the view, the search
    and the drop-downs, each as often as in the list and in the list's order.
   */
  lemma FilterTasksCorrect(ts: seq<Task>, vs: ViewState, clk: Clock)
    ensures FilterTasks(ts, vs, clk) == Filter(ts, Selected(vs, clk))
    ensures Subseq(FilterTasks(ts, vs, clk), ts)
    ensures forall t :: t in FilterTasks(ts, vs, clk) <==> t in ts && Selected(vs, clk)(t)
    ensures forall t: Task :: multiset(FilterTasks(ts, vs, clk))[t] ==
                                if Selected(vs, clk)(t) then multiset(ts)[t] else 0
  {
    var sel := Selected(vs, clk);
    FilterTasksIsFilter(ts, vs, clk);
    var r := Filter(ts, sel);
    FilterIsSubseq(ts, sel);
    forall t: Task ensures multiset(r)[t] == if sel(t) then multiset(ts)[t] else 0 {
      FilterMultiplicity(ts, sel, t);
    }
  }

  /** The chain of stages is one filter by `Selected`. */
  lemma FilterTasksIsFilter(ts: seq<Task>, vs: ViewState, clk: Clock)
    ensures FilterTasks(ts, vs, clk) == Filter(ts, Selected(vs, clk))
  {
    var p1 := (t: Task) => InView(vs, clk, t);
    var p2 := (t: Task) => SearchOk(vs.searchQuery, t);
    var p3 := (t: Task) => FiltersOk(vs.filters, t);
    var s2 := (t: Task) => p1(t) && p2(t);
    var s3 := (t: Task) => s2(t) && p3(t);
    var byView := ViewFilter(ts, vs, clk);
    var bySearch := SearchFilter(byView, vs.searchQuery);
    ViewFilterIsFilter(ts, vs, clk);
    SearchFilterIsFilter(byView, vs.searchQuery);
    FilterFuse(ts, p1, p2, s2);
    assert bySearch == Filter(ts, s2);
    DropDownFiltersIsFilter(bySearch, vs.filters);
    FilterFuse(ts, s2, p3, s3);
    FilterCongruent(ts, s3, Selected(vs, clk));
  }

  lemma SearchFilterIsFilter(ts: seq<Task>, searchQuery: string)
    ensures SearchFilter(ts, searchQuery) == Filter(ts, (t: Task) => SearchOk(searchQuery, t))
  {
    Stage(ts, searchQuery != "", Matches(Lower(searchQuery)), (t: Task) => SearchOk(searchQuery, t));
  }

  lemma DropDownFiltersIsFilter(ts: seq<Task>, f: Filters)
    ensures DropDownFilters(ts, f) == Filter(ts, (t: Task) => FiltersOk(f, t))
  {
    var p3 := (t: Task) => f.priority.None? || t.priority == f.priority.value;
    var p4 := (t: Task) => f.status.None? || t.status == f.status.value;
    var p5 := (t: Task) => f.project.None? || t.project == f.project.value;
    var s4 := (t: Task) => p3(t) && p4(t);
    var s5 := (t: Task) => s4(t) && p5(t);
    var byPriority := if f.priority.Some? then Filter(ts, HasPriority(f.priority.value)) else ts;
    var byStatus := if f.status.Some? then Filter(byPriority, HasStatus(f.status.value)) else byPriority;
    PriorityStage(ts, f.priority);
    assert byPriority == Filter(ts, p3);
    StatusStage(byPriority, f.status);
    FilterFuse(ts, p3, p4, s4);
    assert byStatus == Filter(ts, s4);
    ProjectStage(byStatus, f.project);
    FilterFuse(ts, s4, p5, s5);
    FilterCongruent(ts, s5, (t: Task) => FiltersOk(f, t));
  }

  lemma PriorityStage(ts: seq<Task>, o: Option<Priority>)
    ensures (if o.Some? then Filter(ts, HasPriority(o.value)) else ts)
         == Filter(ts, (t: Task) => o.None? || t.priority == o.value)
  {
    Stage(ts, o.Some?, if o.Some? then HasPriority(o.value) else (t: Task) => true,
          (t: Task) => o.None? || t.priority == o.value);
  }

  lemma StatusStage(ts: seq<Task>, o: Option<string>)
    ensures (if o.Some? then Filter(ts, HasStatus(o.value)) else ts)
         == Filter(ts, (t: Task) => o.None? || t.status == o.value)
  {
    Stage(ts, o.Some?, if o.Some? then HasStatus(o.value) else (t: Task) => true,
          (t: Task) => o.None? || t.status == o.value);
  }

  lemma ProjectStage(ts: seq<Task>, o: Option<string>)
    ensures (if o.Some? then Filter(ts, InProject(o.value)) else ts)
         == Filter(ts, (t: Task) => o.None? || t.project == o.value)
  {
    Stage(ts, o.Some?, if o.Some? then InProject(o.value) else (t: Task) => true,
          (t: Task) => o.None? || t.project == o.value);
  }

  /** The view `switch` filters by `InView`. */
  lemma ViewFilterIsFilter(ts: seq<Task>, vs: ViewState, clk: Clock)
    ensures ViewFilter(ts, vs, clk) == Filter(ts, (t: Task) => InView(vs, clk, t))
  {
    var p := (t: Task) => InView(vs, clk, t);
    match vs.view
    case InboxView => FilterCongruent(ts, InProject(INBOX), p);
    case TodayView => FilterCongruent(ts, DueToday(clk), p);
    case UpcomingView => FilterCongruent(ts, DueAfter(clk.now), p);
    case CompletedView => FilterCongruent(ts, HasStatus(STATUS_COMPLETED), p);
    case ProjectView =>
      if Truthy(vs.currentProject) {
        FilterCongruent(ts, InProject(vs.currentProject.value), p);
      } else {
        FilterKeepsAll(ts, p);
      }
    case Dashboard => FilterKeepsAll(ts, p);
    case OtherView => FilterKeepsAll(ts, p);
  }

  /** A stage that filters by `p` only when `active` filters by `q`, where `q` is `p` when active and always true when not. */
  lemma Stage(xs: seq<Task>, active: bool, p: Task -> bool, q: Task -> bool)
    requires forall t :: q(t) == (!active || p(t))
    ensures (if active then Filter(xs, p) else xs) == Filter(xs, q)
  {
    if active {
      FilterCongruent(xs, p, q);
    } else {
      FilterKeepsAll(xs, q);
    }
  }

  /** With no view, no search and no drop-down set, every task is listed in order. */
  lemma DashboardListsEverything(ts: seq<Task>, clk: Clock, currentProject: Option<string>)
    ensures FilterTasks(ts, ViewState(Dashboard, currentProject, "", NO_FILTERS), clk) == ts
  {
    var vs := ViewState(Dashboard, currentProject, "", NO_FILTERS);
    FilterTasksCorrect(ts, vs, clk);
    FilterKeepsAll(ts, Selected(vs, clk));
  }

  /**
    The project view with no project chosen lists the same tasks as the
    dashboard: it does not empty the list.
   */
  lemma ProjectViewWithoutProject(ts: seq<Task>, clk: Clock, query: string, f: Filters)
    ensures FilterTasks(ts, ViewState(ProjectView, None, query, f), clk)
         == FilterTasks(ts, ViewState(Dashboard, None, query, f), clk)
  {
    var pv := ViewState(ProjectView, None, query, f);
    var dv := ViewState(Dashboard, None, query, f);
    assert ViewFilter(ts, pv, clk) == ts == ViewFilter(ts, dv, clk);
  }

  /** The upcoming view keeps a completed task that is due later: the view does not look at the status. */
  lemma UpcomingViewKeepsCompleted(ts: seq<Task>, clk: Clock, t: Task)
    requires t in ts && t.dueDate.Some? && t.dueDate.value > clk.now
    ensures t in FilterTasks(ts, ViewState(UpcomingView, None, "", NO_FILTERS), clk)
  {
    var byView := ViewFilter(ts, ViewState(UpcomingView, None, "", NO_FILTERS), clk);
    assert byView == Filter(ts, DueAfter(clk.now));
    assert t in byView;
    assert SearchFilter(byView, "") == byView;
    assert DropDownFilters(byView, NO_FILTERS) == byView;
  }

  /** Searching for a task's title, in any mix of letter case, finds that task. */
  lemma SearchFindsTitle(t: Task, query: string)
    requires Lower(query) == Lower(t.title)
    ensures SearchOk(query, t)
  {
    ContainsTrivial(Lower(t.title));
  }

  /** Queries that differ only in letter case select the same tasks. */
  lemma SearchIgnoresCase(ts: seq<Task>, vs: ViewState, clk: Clock, query: string)
    requires Lower(query) == Lower(vs.searchQuery)
    ensures FilterTasks(ts, vs.(searchQuery := query), clk) == FilterTasks(ts, vs, clk)
  {
    var byView := ViewFilter(ts, vs, clk);
    assert ViewFilter(ts, vs.(searchQuery := query), clk) == byView;
    assert query == "" <==> vs.searchQuery == "" by {
      assert |Lower(query)| == |query| && |Lower(vs.searchQuery)| == |vs.searchQuery|;
    }
    assert SearchFilter(byView, query) == SearchFilter(byView, vs.searchQuery);
  }

  // ---------------------------------------------------------------- the comparator

  /** The order the list is sorted by. Any other setting sorts by due date. */
  datatype SortKey = ByDueDate | ByPriority | ByCreatedAt | ByTitle

  /** `priorityOrder`: urgent, then high, then medium, then low. */
  function PriorityRank(p: Priority): (r: nat)
    ensures r <= 3
    ensures r == 0 <==> p == Urgent
    ensures r == 1 <==> p == High
    ensures r == 2 <==> p == Medium
    ensures r == 3 <==> p == Low
  {
    match p
    case Urgent => 0
    case High => 1
    case Medium => 2
    case Low => 3
  }

  /** Code-point order on titles, the total order that stands in for `localeCompare`. */
  function LexCompare(a: string, b: string): (c: int)
    ensures c == -1 || c == 0 || c == 1
    ensures c == 0 <==> a == b
  {
    if a == [] && b == [] then 0
    else if a == [] then -1
    else if b == [] then 1
    else if a[0] < b[0] then -1
    else if a[0] > b[0] then 1
    else
      var c := LexCompare(a[1..], b[1..]);
      assert c == 0 ==> a == [a[0]] + a[1..] && b == [b[0]] + b[1..];
      c
  }

  /** `sortTasks`: negative when `a` goes first, positive when `b` does. */
  function Compare(a: Task, b: Task, key: SortKey): (r: int)
    ensures a == b ==> r == 0
  {
    match key
    case ByPriority => PriorityRank(a.priority) - PriorityRank(b.priority)
    case ByCreatedAt => b.createdAt - a.createdAt
    case ByTitle => LexCompare(a.title, b.title)
    case ByDueDate =>
      if a.dueDate.None? && b.dueDate.None? then 0
      else if a.dueDate.None? then 1
      else if b.dueDate.None? then -1
      else a.dueDate.value - b.dueDate.value
  }

  function Sign(x: int): int {
    if x < 0 then -1 else if x > 0 then 1 else 0
  }

  /** What each sort setting puts first. */
  lemma CompareModes(a: Task, b: Task)
    ensures Compare(a, b, ByPriority) < 0 <==> PriorityRank(a.priority) < PriorityRank(b.priority)
    ensures a.priority == Urgent && b.priority != Urgent ==> Compare(a, b, ByPriority) < 0
    ensures a.priority == High && (b.priority == Medium || b.priority == Low) ==> Compare(a, b, ByPriority) < 0
    ensures a.priority == Medium && b.priority == Low ==> Compare(a, b, ByPriority) < 0
    ensures Compare(a, b, ByCreatedAt) < 0 <==> a.createdAt > b.createdAt
    ensures a.dueDate.None? && b.dueDate.None? ==> Compare(a, b, ByDueDate) == 0
    ensures a.dueDate.Some? && b.dueDate.None? ==> Compare(a, b, ByDueDate) < 0
    ensures a.dueDate.Some? && b.dueDate.Some? ==>
              (Compare(a, b, ByDueDate) < 0 <==> a.dueDate.value < b.dueDate.value)
    ensures Compare(a, b, ByTitle) == 0 <==> a.title == b.title
  {
  }

  lemma {:induction false} LexAntisymmetric(a: string, b: string)
    ensures LexCompare(a, b) == -LexCompare(b, a)
    decreases |a|
  {
    if a != [] && b != [] && a[0] == b[0] {
      LexAntisymmetric(a[1..], b[1..]);
    }
  }

  lemma {:induction false} LexTransitive(a: string, b: string, c: string)
    requires LexCompare(a, b) <= 0 && LexCompare(b, c) <= 0
    ensures LexCompare(a, c) <= 0
    decreases |a|
  {
    if a != [] && b != [] && c != [] && a[0] == b[0] && b[0] == c[0] {
      LexTransitive(a[1..], b[1..], c[1..]);
    }
  }

  /** Swapping the arguments flips the sign, in every sort setting. */
  lemma CompareAntisymmetric(a: Task, b: Task, key: SortKey)
    ensures Sign(Compare(a, b, key)) == -Sign(Compare(b, a, key))
    ensures Compare(a, a, key) == 0
  {
    if key == ByTitle {
      LexAntisymmetric(a.title, b.title);
    }
  }

  /** Every sort setting is a total preorder, so the sorted order it asks for is consistent. */
  lemma CompareTransitive(a: Task, b: Task, c: Task, key: SortKey)
    requires Compare(a, b, key) <= 0 && Compare(b, c, key) <= 0
    ensures Compare(a, c, key) <= 0
  {
    if key == ByTitle {
      LexTransitive(a.title, b.title, c.title);
    }
  }

  /** The list is in the order `key` asks for. */
  predicate SortedBy(ts: seq<Task>, key: SortKey) {
    forall i, j :: 0 <= i < j < |ts| ==> Compare(ts[i], ts[j], key) <= 0
  }

  /** Sorted by due date, every task with a date comes before every task without one. */
  lemma DueDateSortPutsUndatedLast(ts: seq<Task>, i: int, j: int)
    requires SortedBy(ts, ByDueDate)
    requires 0 <= i < j < |ts| && ts[i].dueDate.None?
    ensures ts[j].dueDate.None?
  {
    assert Compare(ts[i], ts[j], ByDueDate) <= 0;
  }
}
