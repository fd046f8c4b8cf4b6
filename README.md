# NovaTask Pro task-list logic in Dafny

This model covers the task-list logic that NovaTask Pro runs in the browser (`script.js`, class `NovaTaskPro`), in three parts.

- **The store.** It holds the ordered task list, the project list and the task open in the editor. `Store.NovaTaskPro` is a class with those fields. Its methods do what the JavaScript does to `state.tasks` and `state.projects`:
  - quick add and the full save `unshift` or assign one slot;
  - the completion toggle `splice`s, then `push`es or `unshift`s;
  - delete reassigns the filtered list;
  - project creation `push`es.

  Each method's new state is the one the matching function of `TaskList` computes. The lemmas beside those functions say what the edit means: prepend, replace in place, append, remove by id, move to the front or end. Each reject path (blank title, blank or duplicate project name, blank or duplicate tag) changes nothing. The tag editor is the class `Store.TagDraft`. It holds the text of each tag element, and `getCurrentTags` reads that text back trimmed.
- **The query pipeline.** `Query.FilterTasks` is `filterTasks`. It runs the view `switch`, then the search box, then the priority, status and project drop-downs. `Query.FilterTasksCorrect` proves the result equals one filter by a single per-task condition, `Selected`. The result therefore lists every task that passes the view, the search and the drop-downs, as often as it occurs in the list, in the list's order, and no other task.
- **The comparator and the statistics.** `Query.Compare` is `sortTasks` in its four modes. It is proved antisymmetric and transitive in every mode. `Stats.ComputeStats` computes every figure `updateStats` writes. The lemmas relate those figures to one another and to the sizes of the views.

Assumptions that replace browser facilities:

- **Time.** Instants are integer milliseconds. A `Clock` pairs the current instant with the local zone's offset, and `Clock.Day` numbers local calendar days in place of `toDateString()`.
- **Ids and the current instant.** They are parameters of the operations.
- **The confirmation dialog.** Its answer is a `confirmed` parameter.
- **Lower-casing.** `toLowerCase` is modelled on ASCII letters.
- **Trimming.** `trim()` strips exactly the ECMAScript white-space and line-terminator code points.
- **Title order.** `localeCompare` is replaced by code-point lexicographic order.

Three places where the code behaves in ways a reader might not expect, modelled as the code does them:

- **Project view with no project chosen.** It filters nothing (script.js:800-804).
- **Search query.** It is lower-cased but not trimmed (script.js:808-809).
- **Upcoming view and upcoming badge.** The view keeps completed tasks (script.js:791-795). The upcoming badge leaves them out (script.js:1038-1040). `Stats.UpcomingBadgeSkipsCompleted` proves that the two then differ.

## Model

| member | source | states |
|---|---|---|
| Text.TrimStart | script.js:304 | the result is the suffix of the input starting at its first non-blank, and everything dropped is white space |
| Text.TrimEnd | script.js:304 | the result is the prefix of the input ending at its last non-blank, and everything dropped is white space |
| Text.Trim | script.js:304 | `trim()` never lengthens its input; what it keeps is stated by `Text.TrimSpec` |
| Text.TrimSpec | script.js:304 | `trim()` returns a contiguous piece of the input with no blank at either end, everything before and after that piece is white space, and it is empty exactly when the input is all white space |
| Text.TrimPieces | script.js:304 | stripping the front and then the back leaves a piece occurring at the first non-blank, followed only by white space, and blank only for an all-blank input |
| Text.TrimIdempotent | script.js:614-616 | trimming an already trimmed string changes nothing |
| Text.Lower | script.js:664 | lower-casing keeps the length and maps each character on its own |
| Text.LowerIdempotent | script.js:809 | lower-casing twice equals lower-casing once, and no upper-case ASCII letter remains |
| Text.Contains | script.js:811-813 | `includes` is true exactly when the query occurs at some index of the text |
| Text.ContainsTrivial | script.js:811 | the empty query occurs in every text, and every text contains itself |
| Seqs.Filter | script.js:782 | `filter` keeps exactly the elements satisfying the predicate and never lengthens the list |
| Seqs.FilterIsSubseq | script.js:782 | `filter` keeps the surviving elements in their original relative order |
| Seqs.FilterMultiplicity | script.js:782 | `filter` keeps every copy of a kept element and no copy of a dropped one |
| Model.DefaultProjects | script.js:623-654 | a first run has four projects, inbox first, with case-insensitively distinct names |
| Model.SeedNotifications | script.js:28-53 | three sample notifications with distinct ids, of which only the first is unread |
| Model.Clock.Day | script.js:785-788 | the day number of an instant is the local day whose 24-hour window, from local midnight, contains it |
| Model.DayWindow | script.js:1031 | an instant falls on local day d exactly when it lies in the 24 hours from that day's local midnight |
| TaskList.FindIndex | script.js:442 | `findIndex` returns -1 exactly when no task has the id, and otherwise the first index holding it |
| TaskList.RemoveAt | script.js:451 | `splice(i, 1)` drops index i and shifts every later element down by one |
| TaskList.AddQuickTask | script.js:303-325 | a blank title is refused; otherwise exactly one task is prepended with the trimmed title, medium priority, the inbox project, pending status, not completed, due one day later, and the old list unchanged behind it |
| TaskList.SavedRecord | script.js:389-403 | the saved record has the trimmed title and description and the form's other fields, has `completed` equal to the status being completed, keeps the open task's id, and carries over the stored `createdAt` on an edit |
| TaskList.SaveTask | script.js:385-417 | saving is refused exactly when the trimmed title is empty; otherwise a new task lengthens the list by one and an edit keeps its length |
| TaskList.SaveTaskInsertsNew | script.js:410-411 | with no task open, the new head is exactly the saved record, with the new id and the current time as creation time, and the rest of the list is unchanged |
| TaskList.SaveTaskReplacesOpen | script.js:412-417 | with a task open, the entry at its index becomes exactly the saved record, keeping its id and creation time, every other entry and the length are unchanged, and an id no longer present leaves the list unchanged |
| TaskList.SaveTaskKeepsConsistent | script.js:402 | after a save, every task still has `completed` in step with its status |
| TaskList.PrependedConsistent | script.js:411 | prepending a consistent task to a consistent list keeps it consistent |
| TaskList.ReplacedConsistent | script.js:415 | replacing one entry of a consistent list by a consistent task keeps it consistent |
| TaskList.RemoveTask | script.js:433 | deleting by id never lengthens the list and keeps exactly the tasks whose id differs |
| TaskList.RemoveTaskSpec | script.js:426-433 | deleting by id removes every task with that id and only those, keeps the order and multiplicity of the rest, leaves the list unchanged for an absent id, shortens it for a present one, and keeps it consistent |
| TaskList.Toggled | script.js:446-448 | toggling flips `completed`, sets the matching status and the update time, and changes nothing else |
| TaskList.ToggleTaskCompletion | script.js:441-456 | an unknown id changes nothing; otherwise the toggled task goes last if now completed and first if now pending, the others keep their order, and the length, the multiset of ids and consistency are preserved |
| TaskList.IdsMoved | script.js:451-455 | taking a task out and putting a same-id task back at either end keeps the multiset of ids |
| TaskList.ToggledAt | script.js:441-456 | when no other task shares the toggled id, after one toggle `findIndex` finds it at the end or the front where it was moved, and taking it out leaves the other tasks in their original order |
| TaskList.ToggleTwice | script.js:441-456 | when no other task shares the toggled id, toggling twice restores the flag, and restores the task up to its update time when its status is pending or completed and agrees with its `completed` flag |
| TaskList.CreateProject | script.js:656-678 | a refusal is for a blank or a duplicate name; an accepted project is appended with the trimmed name and the given colour |
| TaskList.CreateProjectSpec | script.js:656-678 | a blank name or a name taken ignoring case is refused; otherwise exactly one project with the trimmed name and description, the selected colour and the folder icon is appended, and names stay case-insensitively distinct |
| TaskList.AppendedNamesDistinct | script.js:664-667 | appending a project whose name no project has, ignoring case, keeps names distinct |
| TaskList.CreateProjectRejectsCaseVariant | script.js:664-667 | once a project is created, a second name differing only in letter case is refused as a duplicate |
| TaskList.RenderedTags | script.js:613-620 | `getCurrentTags` returns one entry per tag element, each the element's text trimmed, in document order |
| TaskList.AddTag | script.js:556-580 | a blank entry, and an entry equal to the trimmed text of a shown tag, are refused; otherwise one element holding the trimmed entry is appended and the others are unchanged |
| TaskList.AddTagReadBack | script.js:556-620 | after an accepted `addTag`, `getCurrentTags` returns its previous result followed by the trimmed entry, and stays free of duplicates |
| TaskList.RenderedTagsAppend | script.js:613-620 | reading back a container with one more element appends that element's trimmed text |
| TaskList.RenderedTagsIdempotent | script.js:593-620 | saving stores what `getCurrentTags` returns; rendering those tags on reopening and reading them back gives the same list |
| Store.NovaTaskPro.constructor | script.js:8-57 | the state starts from the stored lists, falling back to an empty task list and the default projects, with no task open, the default colour and the sample notifications |
| Store.NovaTaskPro.OpenTaskModal | script.js:336-343 | opening a known task records its id, an unknown id changes nothing, and opening with no id clears it |
| Store.NovaTaskPro.AddQuickTask | script.js:303-325 | the in-place `unshift` yields the list `TaskList.AddQuickTask` describes, and the list is untouched on refusal |
| Store.NovaTaskPro.SaveTask | script.js:385-417 | the in-place `unshift` or slot assignment yields the list `TaskList.SaveTask` describes |
| Store.NovaTaskPro.DeleteTask | script.js:426-433 | with a task open and the deletion confirmed, the list becomes `RemoveTask` of it; otherwise nothing changes |
| Store.NovaTaskPro.DeleteListedTask | script.js:905-913 | a confirmed delete from the list view removes that id as `RemoveTask` does; otherwise nothing changes |
| Store.NovaTaskPro.ToggleTaskCompletion | script.js:441-456 | the `splice` followed by `push` or `unshift` yields the list `TaskList.ToggleTaskCompletion` describes |
| Store.NovaTaskPro.CreateProject | script.js:656-678 | the `push` with the selected colour yields the list `TaskList.CreateProject` describes |
| Store.TagDraft.constructor | script.js:369 | an emptied container holds no tag elements |
| Store.TagDraft.RenderTags | script.js:593-611 | the loop leaves one element per task tag, holding that tag's text, in order |
| Store.TagDraft.AddTag | script.js:556-580 | checking against the trimmed texts and appending yields the container `TaskList.AddTag` describes, unchanged on refusal |
| Store.TagDraft.RemoveTag | script.js:582-587 | once the fade-out delay has passed, the clicked element is gone and the others keep their order |
| Store.TagDraft.GetCurrentTags | script.js:613-620 | the loop returns `RenderedTags` of the container: each element's text trimmed, in order |
| Query.FilterTasks | script.js:773-829 | the listed tasks are never more than the tasks and are all tasks of the list; `Query.FilterTasksCorrect` states exactly which |
| Query.ViewFilter | script.js:777-805 | the view stage keeps only tasks of the list, never more of them |
| Query.SearchFilter | script.js:807-815 | the search stage keeps only tasks of its input, never more of them |
| Query.DropDownFilters | script.js:817-826 | the drop-down stages keep only tasks of their input, never more of them |
| Query.FilterTasksCorrect | script.js:773-829 | the listed tasks are exactly the tasks passing the view, the search and every drop-down, each as often as in the list and in the list's order |
| Query.FilterTasksIsFilter | script.js:773-829 | the chain of `filter` calls equals a single filter by the conjunction of the stage conditions |
| Query.ViewFilterIsFilter | script.js:777-805 | the view `switch` filters by the view's per-task condition, and the dashboard and the project view with no project filter nothing |
| Query.SearchFilterIsFilter | script.js:807-815 | the search stage keeps every task for an empty box, and otherwise the tasks whose title, description or some tag contains the lower-cased query |
| Query.DropDownFiltersIsFilter | script.js:817-826 | the three drop-down stages keep exactly the tasks matching every drop-down not set to all |
| Query.PriorityStage | script.js:818-820 | the priority drop-down keeps the tasks of the chosen priority, or all tasks when set to all |
| Query.StatusStage | script.js:821-823 | the status drop-down keeps the tasks of the chosen status, or all tasks when set to all |
| Query.ProjectStage | script.js:824-826 | the project drop-down keeps the tasks of the chosen project, or all tasks when set to all |
| Query.Stage | script.js:808 | a stage run only when its condition holds equals a filter by "condition off or predicate true" |
| Query.DashboardListsEverything | script.js:778-780 | the dashboard with an empty search and every drop-down on all lists the whole list in order |
| Query.ProjectViewWithoutProject | script.js:800-804 | the project view with no project chosen lists what the dashboard lists |
| Query.UpcomingViewKeepsCompleted | script.js:791-795 | a completed task due later is still listed in the upcoming view |
| Query.SearchFindsTitle | script.js:808-815 | searching for a task's title in any letter case finds that task |
| Query.SearchIgnoresCase | script.js:808-809 | queries differing only in letter case list the same tasks |
| Query.PriorityRank | script.js:834 | the rank is 0 exactly for urgent, 1 for high, 2 for medium and 3 for low |
| Query.LexCompare | script.js:839 | the title order returns -1, 0 or 1, and 0 exactly for equal titles |
| Query.Compare | script.js:831-845 | every sort setting ties a task with itself; the modes are stated by `Query.CompareModes` |
| Query.CompareModes | script.js:831-845 | priority mode puts the lower rank first, so urgent before high before medium before low; created-at mode puts the newer task first; due-date mode ties two undated tasks, puts a dated task before an undated one, and puts the earlier date first; title mode ties only equal titles |
| Query.LexAntisymmetric | script.js:839 | swapping the titles negates the title comparison |
| Query.LexTransitive | script.js:839 | the title order is transitive |
| Query.CompareAntisymmetric | script.js:831-845 | in every mode, swapping the tasks flips the sign of the comparison, and a task ties with itself |
| Query.CompareTransitive | script.js:831-845 | in every mode the comparator is transitive, so the order it asks the sort for is consistent |
| Query.DueDateSortPutsUndatedLast | script.js:841-843 | in a list sorted by due date, no dated task follows an undated one |
| Stats.CompletionRate | script.js:1052-1054 | the rate is the percentage nearest to completed over total with halves rounded up: 0 for no tasks, 0 with nothing completed, at most 100, and 100 when all are completed |
| Stats.RoundingBounds | script.js:1053 | the integer formula for the rate lies within half a percent of the exact ratio and never exceeds 100 |
| Stats.ComputeStats | script.js:1028-1066 | the total is the list's length, both completed figures agree and are at most the total, every badge is at most the list's length, the rate is at most 100, the streak at most 1 and the unread count at most the number of notifications |
| Stats.CountsAddUp | script.js:1044-1049 | completed plus pending equals the total; overdue and upcoming tasks are pending and disjoint, so each and their sum is at most the pending count |
| Stats.RateIsPercentage | script.js:1051-1055 | the rate is at most 100, is 0 with no tasks or none completed, and is 100 when none is pending |
| Stats.StreakIsFlag | script.js:1057-1062 | the streak is 0 or 1, and 1 exactly when some task was completed and updated on the current day |
| Stats.BadgeIsViewSize | script.js:1033-1042 | a badge counting by a view's own condition counts what that view lists with no search and no drop-down |
| Stats.BadgesMatchViews | script.js:1033-1041 | the inbox, today and completed badges equal the sizes of those views |
| Stats.UpcomingBadgeAtMostView | script.js:1038-1040 | the upcoming badge is at most the size of the upcoming view |
| Stats.UpcomingBadgeSkipsCompleted | script.js:1038-1040 | when a completed task is due later, the upcoming badge is strictly less than the upcoming view's size |
| Stats.SeedUnreadCount | script.js:1065 | with the sample notifications, the unread badge shows 1 |

## Left out

- Rendering, modals, toasts, theme, menus, keyboard shortcuts and every other DOM write are left out. `updateStats` is modelled as the figures it would write.
- `loadFromStorage` and `saveToStorage` are left out. The constructor takes what storage held as optional parameters.
- Timers are left out: the deferred `openTaskModal` after a quick add, the deferred switch to a new project, and `debounce`.
- Store.TagDraft.RemoveTag: the source removes a clicked tag element only after a 300 ms fade-out (script.js:582-587). Until then the tag still blocks re-adding it (script.js:564-567), and a save still stores it (script.js:615). The model removes it at once, so it does not capture that window.
- Store.TagDraft is not wired to `Store.NovaTaskPro`. `OpenTaskModal` does not render or clear the tag container (script.js:353, 369), and `SaveTask` takes its tags from the form it is given rather than from `GetCurrentTags`.
- Service-worker registration, `formatDate`, `formatDateForInput` and `escapeHtml` are browser-facing and not part of this model.
- Subtasks (`addSubtask`, `renderSubtasks`, `getCurrentSubtasks`) are left out. A saved task carries the subtasks the form supplies.
- Notification marking is left out. Only the seeded notifications and the unread count are kept.
- Sorting itself (`Array.prototype.sort`) is left out. Only its comparator, and what a list sorted by it looks like, are modelled.
- Id generation from `Date.now()` is left out. Ids are parameters, and nothing claims they are unique.
- Dates are integer milliseconds. An unparsable date string and its `NaN` comparisons are not modelled.
- Text.Lower: lower-cases ASCII letters only. Full Unicode case mapping is not modelled.
- Query.LexCompare: code-point order stands in for the locale collation of `localeCompare`.
- Model.Clock: a fixed offset from UTC. Daylight-saving changes between two instants are not modelled.
- Stats.CompletionRate: rounds the exact ratio. The floating-point division and multiplication in the source can land just below a half and round down, so it may show one percent less at exact halves.
- Query.Filters: the priority drop-down holds one of the four priorities or all. A stored filter value outside those is not modelled.
