/**
  `updateStats`: the sidebar badges, the dashboard figures and the
  notification badge, as counts over the task and notification lists.
 */
module Stats {
  import opened Seqs
  import opened Model
  import opened Query

  /** Every figure `updateStats` writes, in the order it writes them. */
  datatype Stats = Stats(
    inboxCount: nat,
    todayCount: nat,
    upcomingCount: nat,
    completedCount: nat,
    totalTasks: nat,
    completedTasks: nat,
    pendingTasks: nat,
    overdueTasks: nat,
    completionRate: nat,
    streak: nat,
    unreadCount: nat)

  function NotCompleted(): Task -> bool {
    (t: Task) => t.status != STATUS_COMPLETED
  }

  /** Due strictly after `now` and not completed: what the upcoming badge counts. */
  function UpcomingPending(now: int): Task -> bool {
    (t: Task) => t.dueDate.Some? && t.dueDate.value > now && t.status != STATUS_COMPLETED
  }

  /** Due strictly before `now` and not completed. */
  function OverduePending(now: int): Task -> bool {
    (t: Task) => t.dueDate.Some? && t.dueDate.value < now && t.status != STATUS_COMPLETED
  }

  /** Completed, and last updated on the clock's current local day. */
  function CompletedToday(clk: Clock): Task -> bool {
    (t: Task) => t.status == STATUS_COMPLETED && clk.Day(t.updatedAt) == clk.Today()
  }

  function Unread(): Notification -> bool {
    (n: Notification) => !n.read
  }

  /**
    `Math.round(done / total * 100)` on exact rationals: the whole percentage
    nearest to `done / total`, halves rounded up.
   */
  function CompletionRate(done: nat, total: nat): (rate: nat)
    ensures total == 0 ==> rate == 0
    ensures total > 0 ==> 2 * total * rate - total <= 200 * done < 2 * total * rate + total
    ensures done <= total ==> rate <= 100
    ensures done == 0 ==> rate == 0
    ensures 0 < total == done ==> rate == 100
  {
    if total == 0 then 0
    else
      var rate := (200 * done + total) / (2 * total);
      RoundingBounds(done, total, rate);
      rate
  }

  lemma RoundingBounds(done: nat, total: nat, rate: int)
    requires total > 0 && rate == (200 * done + total) / (2 * total)
    ensures 2 * total * rate - total <= 200 * done < 2 * total * rate + total
    ensures done <= total ==> rate <= 100
    ensures done == 0 ==> rate == 0
    ensures done == total ==> rate == 100
  {
    var x, m := 200 * done + total, 2 * total;
    DivBounds(x, m);
    if done <= total && rate > 100 {
      MulMonotone(m, 101, rate);
    }
    if done == total && rate < 100 {
      MulMonotone(m, rate, 99);
    }
    if done == 0 && rate > 0 {
      MulMonotone(m, 1, rate);
    }
  }

  lemma DivBounds(x: int, m: int)
    requires m > 0
    ensures m * (x / m) <= x < m * (x / m) + m
  {
  }

  lemma MulMonotone(m: int, a: int, b: int)
    requires m > 0 && a <= b
    ensures m * a <= m * b
  {
    assert m * b - m * a == m * (b - a);
  }

  /** The figures for a task list and a notification list at the instant the clock reads. */
  function ComputeStats(ts: seq<Task>, ns: seq<Notification>, clk: Clock): (st: Stats)
    ensures st.totalTasks == |ts| && st.completedTasks == st.completedCount <= st.totalTasks
    ensures st.inboxCount <= |ts| && st.todayCount <= |ts| && st.upcomingCount <= |ts| && st.overdueTasks <= |ts|
    ensures st.completionRate <= 100 && st.streak <= 1 && st.unreadCount <= |ns|
  {
    var completed := |Filter(ts, HasStatus(STATUS_COMPLETED))|;
    var completedToday := |Filter(ts, CompletedToday(clk))|;
    Stats(
      |Filter(ts, InProject(INBOX))|,
      |Filter(ts, DueToday(clk))|,
      |Filter(ts, UpcomingPending(clk.now))|,
      completed,
      |ts|,
      completed,
      |Filter(ts, NotCompleted())|,
      |Filter(ts, OverduePending(clk.now))|,
      if |ts| > 0 then CompletionRate(completed, |ts|) else 0,
      if completedToday > 0 then 1 else 0,
      |Filter(ns, Unread())|)
  }

  /**
    Completed and pending tasks make up the whole list; overdue and upcoming
    tasks are pending and never the same task.
   */
  lemma CountsAddUp(ts: seq<Task>, ns: seq<Notification>, clk: Clock)
    ensures var st := ComputeStats(ts, ns, clk);
            st.completedTasks + st.pendingTasks == st.totalTasks == |ts|
    ensures var st := ComputeStats(ts, ns, clk);
            && st.overdueTasks <= st.pendingTasks
            && st.upcomingCount <= st.pendingTasks
            && st.overdueTasks + st.upcomingCount <= st.pendingTasks
  {
    var now := clk.now;
    FilterPartition(ts, HasStatus(STATUS_COMPLETED), NotCompleted());
    var either := (t: Task) => OverduePending(now)(t) || UpcomingPending(now)(t);
    FilterDisjointSum(ts, OverduePending(now), UpcomingPending(now), either);
    FilterCountMonotone(ts, either, NotCompleted());
  }

  /** The rate is a percentage: 0 for an empty list or one with nothing completed, 100 when nothing is pending. */
  lemma RateIsPercentage(ts: seq<Task>, ns: seq<Notification>, clk: Clock)
    ensures var st := ComputeStats(ts, ns, clk);
            && st.completionRate <= 100
            && (ts == [] ==> st.completionRate == 0)
            && (st.completedTasks == 0 ==> st.completionRate == 0)
            && (ts != [] && st.pendingTasks == 0 ==> st.completionRate == 100)
  {
    FilterPartition(ts, HasStatus(STATUS_COMPLETED), NotCompleted());
  }

  /** The streak is a flag, raised exactly when some task was completed on the current day. */
  lemma StreakIsFlag(ts: seq<Task>, ns: seq<Notification>, clk: Clock)
    ensures var st := ComputeStats(ts, ns, clk);
            && (st.streak == 0 || st.streak == 1)
            && (st.streak == 1 <==>
                  exists t :: t in ts && t.status == STATUS_COMPLETED && clk.Day(t.updatedAt) == clk.Today())
  {
    var completedToday := Filter(ts, CompletedToday(clk));
    if completedToday != [] {
      assert completedToday[0] in completedToday;
    }
  }

  /** A sidebar badge that counts by the view's own condition counts what that view lists. */
  lemma BadgeIsViewSize(ts: seq<Task>, clk: Clock, view: View, p: Task -> bool)
    requires forall t :: p(t) == InView(ViewState(view, None, "", NO_FILTERS), clk, t)
    ensures |Filter(ts, p)| == |FilterTasks(ts, ViewState(view, None, "", NO_FILTERS), clk)|
  {
    var vs := ViewState(view, None, "", NO_FILTERS);
    FilterTasksCorrect(ts, vs, clk);
    FilterCongruent(ts, p, Selected(vs, clk));
  }

  /**
    The inbox, today and completed badges count exactly the tasks their view
    lists with no search and no drop-down set.
   */
  lemma BadgesMatchViews(ts: seq<Task>, ns: seq<Notification>, clk: Clock)
    ensures ComputeStats(ts, ns, clk).inboxCount
         == |FilterTasks(ts, ViewState(InboxView, None, "", NO_FILTERS), clk)|
    ensures ComputeStats(ts, ns, clk).todayCount
         == |FilterTasks(ts, ViewState(TodayView, None, "", NO_FILTERS), clk)|
    ensures ComputeStats(ts, ns, clk).completedCount
         == |FilterTasks(ts, ViewState(CompletedView, None, "", NO_FILTERS), clk)|
  {
    BadgeIsViewSize(ts, clk, InboxView, InProject(INBOX));
    BadgeIsViewSize(ts, clk, TodayView, DueToday(clk));
    BadgeIsViewSize(ts, clk, CompletedView, HasStatus(STATUS_COMPLETED));
  }

  /** The upcoming badge counts no more than the upcoming view lists, since it also leaves out completed tasks. */
  lemma UpcomingBadgeAtMostView(ts: seq<Task>, ns: seq<Notification>, clk: Clock)
    ensures ComputeStats(ts, ns, clk).upcomingCount
         <= |FilterTasks(ts, ViewState(UpcomingView, None, "", NO_FILTERS), clk)|
  {
    BadgeIsViewSize(ts, clk, UpcomingView, DueAfter(clk.now));
    FilterCountMonotone(ts, UpcomingPending(clk.now), DueAfter(clk.now));
  }

  /** A completed task due later is listed in the upcoming view but not counted on its badge. */
  lemma UpcomingBadgeSkipsCompleted(ts: seq<Task>, ns: seq<Notification>, clk: Clock, k: int)
    requires 0 <= k < |ts| && ts[k].status == STATUS_COMPLETED
    requires ts[k].dueDate.Some? && ts[k].dueDate.value > clk.now
    ensures ComputeStats(ts, ns, clk).upcomingCount
          < |FilterTasks(ts, ViewState(UpcomingView, None, "", NO_FILTERS), clk)|
  {
    BadgeIsViewSize(ts, clk, UpcomingView, DueAfter(clk.now));
    FilterCountStrict(ts, UpcomingPending(clk.now), DueAfter(clk.now), k);
  }

  /** Of the sample notifications the application starts with, one is unread. */
  lemma SeedUnreadCount(ts: seq<Task>, clk: Clock)
    ensures ComputeStats(ts, SeedNotifications(), clk).unreadCount == 1
  {
    var ns := SeedNotifications();
    assert Filter(ns[2..], Unread()) == [];
    assert Filter(ns[1..], Unread()) == [];
  }
}
