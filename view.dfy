/** The view `updateTaskList` derives from the task list: a sorted copy of the tasks, the
    rows that pass the filter mode and the search term, and for each row the position of its
    task in the list (`filteredTaskIndices`), which every selection command dereferences. */
module View {
  import opened Text
  import opened TaskModel

  datatype FilterMode = All | Completed | Uncompleted

  datatype SortMode = Default | ByPriority | ByDueDate | ByCreated

  /** The `f` key: all, completed, uncompleted, all again. */
  function NextFilter(f: FilterMode): FilterMode {
    match f
    case All => Completed
    case Completed => Uncompleted
    case Uncompleted => All
  }

  /** The `s` key: default, priority, due date, created, default again. */
  function NextSort(m: SortMode): SortMode {
    match m
    case Default => ByPriority
    case ByPriority => ByDueDate
    case ByDueDate => ByCreated
    case ByCreated => Default
  }

  /** Three presses of `f` visit every filter mode and come back. */
  lemma FilterCycle(f: FilterMode)
    ensures NextFilter(NextFilter(NextFilter(f))) == f
    ensures {f, NextFilter(f), NextFilter(NextFilter(f))} == {All, Completed, Uncompleted}
  {
  }

  /** Four presses of `s` visit every sort mode and come back. */
  lemma SortCycle(m: SortMode)
    ensures NextSort(NextSort(NextSort(NextSort(m)))) == m
    ensures {m, NextSort(m), NextSort(NextSort(m)), NextSort(NextSort(NextSort(m)))}
         == {Default, ByPriority, ByDueDate, ByCreated}
  {
  }

  // ---------------------------------------------------------------- comparators

  /** The priority sort's ranks: high 0, medium 1, low 2, unset 3. */
  function Rank(p: Option<Priority>): nat {
    match p
    case Some(High) => 0
    case Some(Medium) => 1
    case Some(Low) => 2
    case None => 3
  }

  /** `task.due_date` is truthy: present and not the empty string. */
  predicate HasDueDate(t: Task) {
    t.dueDate.Some? && t.dueDate.value != []
  }

  /** `a` sorts strictly before `b` under `mode`. Due dates and creation stamps are compared
      as text; tasks with a due date come before tasks without one. */
  predicate Before(mode: SortMode, a: Task, b: Task) {
    match mode
    case Default => false
    case ByPriority => Rank(a.priority) < Rank(b.priority)
    case ByDueDate => HasDueDate(a) && (!HasDueDate(b) || LexLess(a.dueDate.value, b.dueDate.value))
    case ByCreated => LexLess(a.createdAt, b.createdAt)
  }

  lemma BeforeIrreflexive(mode: SortMode, a: Task)
    ensures !Before(mode, a, a)
  {
    if a.dueDate.Some? { LexLessIrreflexive(a.dueDate.value); }
    LexLessIrreflexive(a.createdAt);
  }

  lemma BeforeTransitive(mode: SortMode, a: Task, b: Task, c: Task)
    requires Before(mode, a, b) && Before(mode, b, c)
    ensures Before(mode, a, c)
  {
    match mode
    case ByDueDate =>
      if HasDueDate(c) { LexLessTransitive(a.dueDate.value, b.dueDate.value, c.dueDate.value); }
    case ByCreated => LexLessTransitive(a.createdAt, b.createdAt, c.createdAt);
    case _ =>
  }

  lemma BeforeAsymmetric(mode: SortMode, a: Task, b: Task)
    requires Before(mode, a, b)
    ensures !Before(mode, b, a)
  {
    if Before(mode, b, a) {
      BeforeTransitive(mode, a, b, a);
      BeforeIrreflexive(mode, a);
    }
  }

  /** Not sorting after is transitive too, so every sort mode is a strict weak order: the
      comparator the stable sort needs. */
  lemma BeforeNegativelyTransitive(mode: SortMode, a: Task, b: Task, c: Task)
    requires !Before(mode, a, b) && !Before(mode, b, c)
    ensures !Before(mode, a, c)
  {
    match mode
    case ByDueDate =>
      if HasDueDate(a) && HasDueDate(b) && HasDueDate(c) {
        var x, y, z := a.dueDate.value, b.dueDate.value, c.dueDate.value;
        LexLessTotal(x, y);
        LexLessTotal(y, z);
        if LexLess(x, z) {
          if LexLess(y, x) { LexLessTransitive(y, x, z); }
          if y == x { }
        }
      }
    case ByCreated =>
      var x, y, z := a.createdAt, b.createdAt, c.createdAt;
      LexLessTotal(x, y);
      LexLessTotal(y, z);
      if LexLess(x, z) {
        if LexLess(y, x) { LexLessTransitive(y, x, z); }
      }
    case _ =>
  }

  /** The comparator of the due-date sort as written: it answers 1 whenever the first task has
      no due date, and the date difference is replaced by its sign. */
  function DueDateCompareAsWritten(a: Task, b: Task): int {
    if !HasDueDate(a) then 1
    else if !HasDueDate(b) then -1
    else if LexLess(a.dueDate.value, b.dueDate.value) then -1
    else if LexLess(b.dueDate.value, a.dueDate.value) then 1
    else 0
  }

  /** With two undated tasks each is declared to sort after the other, which is not a
      consistent comparator; the order of undated tasks is then left to the engine. */
  lemma DueDateCompareInconsistent(a: Task, b: Task)
    requires !HasDueDate(a) && !HasDueDate(b)
    ensures DueDateCompareAsWritten(a, b) > 0 && DueDateCompareAsWritten(b, a) > 0
  {
  }

  /** Whenever at least one of the two tasks has a due date, the comparator as written and
      `Before(ByDueDate, ..)` agree on which comes first. */
  lemma DueDateCompareAgrees(a: Task, b: Task)
    requires HasDueDate(a) || HasDueDate(b)
    ensures DueDateCompareAsWritten(a, b) < 0 <==> Before(ByDueDate, a, b)
    ensures DueDateCompareAsWritten(a, b) > 0 <==> Before(ByDueDate, b, a)
  {
    if HasDueDate(a) && HasDueDate(b) {
      LexLessIrreflexive(a.dueDate.value);
      if LexLess(a.dueDate.value, b.dueDate.value) && LexLess(b.dueDate.value, a.dueDate.value) {
        LexLessTransitive(a.dueDate.value, b.dueDate.value, a.dueDate.value);
      }
    }
  }

  // ---------------------------------------------------------------- the sorted copy

  /** A task of the copy together with the position it had in the list. The view never reads
      `pos`; it is there so that the stability of the sort can be stated. */
  datatype Entry = Entry(pos: nat, task: Task)

  function Entries(ts: seq<Task>): seq<Entry>
  {
    seq(|ts|, k requires 0 <= k < |ts| => Entry(k, ts[k]))
  }

  function TasksOf(es: seq<Entry>): seq<Task>
  {
    seq(|es|, k requires 0 <= k < |es| => es[k].task)
  }

  /** Puts `e` in front of the first element that does not sort strictly before it. */
  function Insert(mode: SortMode, e: Entry, s: seq<Entry>): seq<Entry> {
    if s == [] then [e]
    else if !Before(mode, s[0].task, e.task) then [e] + s
    else [s[0]] + Insert(mode, e, s[1..])
  }

  function InsertionSort(mode: SortMode, s: seq<Entry>): seq<Entry> {
    if s == [] then [] else Insert(mode, s[0], InsertionSort(mode, s[1..]))
  }

  /** `sortedTasks.sort(..)`: the default mode leaves the copy as it is. */
  function SortEntries(mode: SortMode, es: seq<Entry>): seq<Entry> {
    if mode == Default then es else InsertionSort(mode, es)
  }

  /** `[...this.tasks]` sorted by the sort mode. */
  function SortedCopy(mode: SortMode, ts: seq<Task>): seq<Task> {
    TasksOf(SortEntries(mode, Entries(ts)))
  }

  predicate IncreasingPositions(es: seq<Entry>) {
    forall i, j :: 0 <= i < j < |es| ==> es[i].pos < es[j].pos
  }

  /** `a` may stand before `b` in a stable sort: `b` does not sort strictly before `a`, and if
      neither sorts before the other, `a` came first in the list. */
  predicate InOrder(mode: SortMode, a: Entry, b: Entry) {
    !Before(mode, b.task, a.task) && (Before(mode, a.task, b.task) || a.pos < b.pos)
  }

  predicate StablySorted(mode: SortMode, es: seq<Entry>) {
    forall i, j :: 0 <= i < j < |es| ==> InOrder(mode, es[i], es[j])
  }

  lemma {:induction false} InsertSpec(mode: SortMode, e: Entry, s: seq<Entry>)
    requires StablySorted(mode, s)
    requires forall k :: 0 <= k < |s| ==> e.pos < s[k].pos
    ensures multiset(Insert(mode, e, s)) == multiset(s) + multiset{e}
    ensures StablySorted(mode, Insert(mode, e, s))
  {
    if s == [] {
    } else if !Before(mode, s[0].task, e.task) {
      InsertInFront(mode, e, s);
    } else {
      InsertSpec(mode, e, s[1..]);
      var rest := Insert(mode, e, s[1..]);
      HeadStaysFirst(mode, e, s, rest);
      var r := [s[0]] + rest;
      forall i, j | 0 <= i < j < |r| ensures InOrder(mode, r[i], r[j]) {
        if i > 0 {
          assert r[i] == rest[i - 1] && r[j] == rest[j - 1];
        }
      }
      assert s == [s[0]] + s[1..];
    }
  }

  /** An entry that comes first in the list and does not sort after the head goes in front. */
  lemma InsertInFront(mode: SortMode, e: Entry, s: seq<Entry>)
    requires s != [] && StablySorted(mode, s) && !Before(mode, s[0].task, e.task)
    requires forall k :: 0 <= k < |s| ==> e.pos < s[k].pos
    ensures StablySorted(mode, [e] + s)
  {
    var r := [e] + s;
    forall i, j | 0 <= i < j < |r| ensures InOrder(mode, r[i], r[j]) {
      if i == 0 && j > 1 {
        assert InOrder(mode, s[0], s[j - 1]);
        BeforeNegativelyTransitive(mode, s[j - 1].task, s[0].task, e.task);
      } else if i > 0 {
        assert r[i] == s[i - 1] && r[j] == s[j - 1];
      }
    }
  }

  /** When `e` sorts strictly after the head, the head may stand before every entry of the
      rest with `e` inserted. */
  lemma HeadStaysFirst(mode: SortMode, e: Entry, s: seq<Entry>, rest: seq<Entry>)
    requires s != [] && StablySorted(mode, s) && Before(mode, s[0].task, e.task)
    requires multiset(rest) == multiset(s[1..]) + multiset{e}
    ensures forall j :: 0 <= j < |rest| ==> InOrder(mode, s[0], rest[j])
  {
    forall j | 0 <= j < |rest| ensures InOrder(mode, s[0], rest[j]) {
      assert rest[j] in multiset(rest);
      if rest[j] == e {
        BeforeAsymmetric(mode, s[0].task, e.task);
      } else {
        assert rest[j] in s[1..];
        var k :| 0 <= k < |s[1..]| && s[1..][k] == rest[j];
        assert InOrder(mode, s[0], s[k + 1]);
      }
    }
  }

  lemma {:induction false} InsertionSortSpec(mode: SortMode, s: seq<Entry>)
    requires IncreasingPositions(s)
    ensures multiset(InsertionSort(mode, s)) == multiset(s)
    ensures StablySorted(mode, InsertionSort(mode, s))
  {
    if s != [] {
      InsertionSortSpec(mode, s[1..]);
      var t := InsertionSort(mode, s[1..]);
      PositionsAfterHead(s, t);
      InsertSpec(mode, s[0], t);
      assert s == [s[0]] + s[1..];
    }
  }

  /** A rearrangement of the tail of a sequence with increasing positions holds only
      positions after the head's. */
  lemma PositionsAfterHead(s: seq<Entry>, t: seq<Entry>)
    requires s != [] && IncreasingPositions(s) && multiset(t) == multiset(s[1..])
    ensures forall k :: 0 <= k < |t| ==> s[0].pos < t[k].pos
  {
    forall k | 0 <= k < |t| ensures s[0].pos < t[k].pos {
      assert t[k] in multiset(s[1..]);
      var m :| 0 <= m < |s[1..]| && s[1..][m] == t[k];
      assert s[m + 1] == t[k];
    }
  }

  /** Every entry of the sorted copy carries the task found at its position. */
  predicate FaithfulEntries(ts: seq<Task>, es: seq<Entry>) {
    forall k :: 0 <= k < |es| ==> es[k].pos < |ts| && ts[es[k].pos] == es[k].task
  }

  /** The sort is stable and is a permutation of the list: each position appears once, with
      its own task. */
  lemma SortEntriesSpec(mode: SortMode, ts: seq<Task>)
    ensures multiset(SortEntries(mode, Entries(ts))) == multiset(Entries(ts))
    ensures StablySorted(mode, SortEntries(mode, Entries(ts)))
    ensures FaithfulEntries(ts, SortEntries(mode, Entries(ts)))
  {
    var es := Entries(ts);
    var sorted := SortEntries(mode, es);
    if mode != Default {
      InsertionSortSpec(mode, es);
    }
    forall k | 0 <= k < |sorted| ensures sorted[k].pos < |ts| && ts[sorted[k].pos] == sorted[k].task {
      assert sorted[k] in multiset(es);
      var m :| 0 <= m < |es| && es[m] == sorted[k];
    }
  }

  // ---------------------------------------------------------------- filter and search

  predicate MatchesFilter(f: FilterMode, t: Task) {
    f == All || (f == Completed && t.completed) || (f == Uncompleted && !t.completed)
  }

  /** An empty term matches every task; otherwise the lower-cased description contains the
      lower-cased term. */
  predicate MatchesSearch(term: string, t: Task) {
    term == [] || Contains(ToLower(t.description), ToLower(term))
  }

  /** The search ignores the case of ASCII letters in the term. */
  lemma SearchIgnoresCase(term: string, t: Task)
    ensures MatchesSearch(ToLower(term), t) == MatchesSearch(term, t)
  {
    assert ToLower(ToLower(term)) == ToLower(term);
  }

  predicate Shown(f: FilterMode, term: string, t: Task) {
    MatchesFilter(f, t) && MatchesSearch(term, t)
  }

  /** `tasks.findIndex((t) => t.id === id)`. */
  function FindIndex(ts: seq<Task>, id: int): (r: int)
    ensures -1 <= r < |ts|
    ensures r >= 0 ==> ts[r].id == id && forall k :: 0 <= k < r ==> ts[k].id != id
    ensures r == -1 ==> FreshId(ts, id)
  {
    if ts == [] then -1
    else if ts[0].id == id then 0
    else
      var r := FindIndex(ts[1..], id);
      if r == -1 then -1 else r + 1
  }

  /** With unique ids, looking up the id of the task at position `p` finds `p`. */
  lemma FindIndexOfPosition(ts: seq<Task>, p: nat)
    requires UniqueIds(ts) && p < |ts|
    ensures FindIndex(ts, ts[p].id) == p
  {
  }

  // ---------------------------------------------------------------- the edit dialog

  /** One Enter handler of the edit dialog, opened for the task with `id`: a non-blank input,
      trimmed, becomes the description of the first task with that id; a blank input or an id
      no longer in the list leaves the list as it is. */
  function EditById(ts: seq<Task>, id: int, input: string): (r: seq<Task>)
    ensures |r| == |ts|
  {
    var i := FindIndex(ts, id);
    if Trim(input) != [] && i >= 0 then ts[i := WithDescription(ts[i], Trim(input))] else ts
  }

  /** An edit touches only the task it was opened for, and only its description. */
  lemma EditByIdSpec(ts: seq<Task>, id: int, input: string)
    ensures forall j :: 0 <= j < |ts| && ts[j].id != id ==> EditById(ts, id, input)[j] == ts[j]
    ensures forall j :: 0 <= j < |ts| ==>
      EditById(ts, id, input)[j].(description := ts[j].description) == ts[j]
    ensures Trim(input) == [] || FreshId(ts, id) ==> EditById(ts, id, input) == ts
    ensures Trim(input) != [] && !FreshId(ts, id) ==>
      EditById(ts, id, input)[FindIndex(ts, id)].description == Trim(input)
  {
  }

  /** The edit dialog as written: `unkey` is handed a new function, so it removes no handler,
      and every opening adds one more. One Enter then runs the handler of every opening so far,
      oldest first, each with the id it captured and all reading the same input. */
  function EditHandlersAsWritten(ts: seq<Task>, handlers: seq<int>, input: string): (r: seq<Task>)
    ensures |r| == |ts|
    decreases |handlers|
  {
    if handlers == [] then ts
    else EditHandlersAsWritten(EditById(ts, handlers[0], input), handlers[1..], input)
  }

  /** An edit leaves every id where it was, so later lookups find the same positions. */
  lemma EditKeepsLookup(ts: seq<Task>, id: int, input: string, other: int)
    ensures FindIndex(EditById(ts, id, input), other) == FindIndex(ts, other)
  {
  }

  /** Opening the dialog on task `a`, dismissing it, opening it on another task `b` and
      submitting a text gives that text to `a` as well as to `b`. */
  lemma StaleEditHandlerRenames(ts: seq<Task>, a: int, b: int, input: string)
    requires !FreshId(ts, a) && !FreshId(ts, b) && a != b && Trim(input) != []
    ensures var r := EditHandlersAsWritten(ts, [a, b], input);
      && r[FindIndex(ts, a)] == WithDescription(ts[FindIndex(ts, a)], Trim(input))
      && r[FindIndex(ts, b)] == WithDescription(ts[FindIndex(ts, b)], Trim(input))
  {
    var first := EditById(ts, a, input);
    EditKeepsLookup(ts, a, input, b);
    assert [a, b][1..] == [b];
    assert EditHandlersAsWritten(ts, [a, b], input) == EditHandlersAsWritten(first, [b], input);
    assert EditHandlersAsWritten(first, [b], input) == EditById(first, b, input);
  }

  // ---------------------------------------------------------------- the view

  /** The positions pushed into `filteredTaskIndices` while walking `sorted`. */
  function IndicesFrom(ts: seq<Task>, sorted: seq<Task>, f: FilterMode, term: string): seq<int> {
    if sorted == [] then []
    else
      var task := sorted[|sorted| - 1];
      IndicesFrom(ts, sorted[..|sorted| - 1], f, term)
        + (if Shown(f, term, task) then [FindIndex(ts, task.id)] else [])
  }

  /** The tasks whose rows are added to the list while walking `sorted`. */
  function RowsFrom(sorted: seq<Task>, f: FilterMode, term: string): seq<Task> {
    if sorted == [] then []
    else
      var task := sorted[|sorted| - 1];
      RowsFrom(sorted[..|sorted| - 1], f, term) + (if Shown(f, term, task) then [task] else [])
  }

  /** `filteredTaskIndices` after `updateTaskList`. */
  function ViewIndices(ts: seq<Task>, f: FilterMode, mode: SortMode, term: string): seq<int> {
    IndicesFrom(ts, SortedCopy(mode, ts), f, term)
  }

  /** The tasks displayed, row by row. */
  function ViewRows(ts: seq<Task>, f: FilterMode, mode: SortMode, term: string): seq<Task> {
    RowsFrom(SortedCopy(mode, ts), f, term)
  }

  /** Row `k` is displayed with position `v[k]`: a position inside the list whose task has the
      id of the task on the row, and (`exact`) is that very task. */
  predicate RowsMatchIndices(ts: seq<Task>, v: seq<int>, rows: seq<Task>, exact: bool) {
    && |v| == |rows|
    && forall k :: 0 <= k < |v| ==>
         && 0 <= v[k] < |ts|
         && ts[v[k]].id == rows[k].id
         && (exact ==> ts[v[k]] == rows[k])
  }

  predicate AllShown(rows: seq<Task>, f: FilterMode, term: string) {
    forall k :: 0 <= k < |rows| ==> Shown(f, term, rows[k])
  }

  lemma {:induction false} IndicesFromAligned(ts: seq<Task>, sorted: seq<Task>, f: FilterMode, term: string)
    requires forall k :: 0 <= k < |sorted| ==> sorted[k] in ts
    ensures RowsMatchIndices(ts, IndicesFrom(ts, sorted, f, term), RowsFrom(sorted, f, term), UniqueIds(ts))
    ensures AllShown(RowsFrom(sorted, f, term), f, term)
  {
    if sorted != [] {
      var init := sorted[..|sorted| - 1];
      var task := sorted[|sorted| - 1];
      IndicesFromAligned(ts, init, f, term);
      if Shown(f, term, task) {
        var q :| 0 <= q < |ts| && ts[q] == task;
        var p := FindIndex(ts, task.id);
        assert p >= 0 && ts[p].id == task.id;
        if UniqueIds(ts) {
          assert p == q;
        }
      }
    }
  }

  /** Index validity, which holds whatever the ids: the view has one position per displayed
      row, every position is inside the list, and the task there has the id of the task on the
      row; with unique ids it is that very task. */
  lemma ViewAligned(ts: seq<Task>, f: FilterMode, mode: SortMode, term: string)
    ensures RowsMatchIndices(ts, ViewIndices(ts, f, mode, term), ViewRows(ts, f, mode, term), UniqueIds(ts))
    ensures AllShown(ViewRows(ts, f, mode, term), f, term)
  {
    var sorted := SortedCopy(mode, ts);
    SortEntriesSpec(mode, ts);
    var es := SortEntries(mode, Entries(ts));
    forall k | 0 <= k < |sorted| ensures sorted[k] in ts {
      assert ts[es[k].pos] == sorted[k];
    }
    IndicesFromAligned(ts, sorted, f, term);
  }

  /** The positions of the shown entries, in the order of `es`. */
  function ShownPositions(es: seq<Entry>, f: FilterMode, term: string): seq<int> {
    if es == [] then []
    else
      var e := es[|es| - 1];
      ShownPositions(es[..|es| - 1], f, term) + (if Shown(f, term, e.task) then [e.pos as int] else [])
  }

  /** With unique ids, looking each task up by id recovers the position it was copied from. */
  lemma {:induction false} IndicesAreShownPositions(ts: seq<Task>, es: seq<Entry>, f: FilterMode, term: string)
    requires UniqueIds(ts) && FaithfulEntries(ts, es)
    ensures IndicesFrom(ts, TasksOf(es), f, term) == ShownPositions(es, f, term)
  {
    if es != [] {
      var init := es[..|es| - 1];
      var e := es[|es| - 1];
      IndicesAreShownPositions(ts, init, f, term);
      assert TasksOf(es)[..|es| - 1] == TasksOf(init);
      FindIndexOfPosition(ts, e.pos);
    }
  }

  lemma {:induction false} ShownPositionsMembers(es: seq<Entry>, f: FilterMode, term: string)
    ensures forall p :: p in ShownPositions(es, f, term) <==>
      exists e :: e in es && e.pos == p && Shown(f, term, e.task)
  {
    if es != [] {
      var init := es[..|es| - 1];
      ShownPositionsMembers(init, f, term);
      assert es == init + [es[|es| - 1]];
    }
  }

  /** Positions `p` then `q` are in the order the stable sort puts their tasks in. */
  predicate InViewOrder(mode: SortMode, ts: seq<Task>, p: int, q: int) {
    && 0 <= p < |ts| && 0 <= q < |ts|
    && !Before(mode, ts[q], ts[p])
    && (Before(mode, ts[p], ts[q]) || p < q)
  }

  predicate StableView(mode: SortMode, ts: seq<Task>, v: seq<int>) {
    forall i, j :: 0 <= i < j < |v| ==> InViewOrder(mode, ts, v[i], v[j])
  }

  lemma {:induction false} ShownPositionsOrdered(mode: SortMode, ts: seq<Task>, es: seq<Entry>, f: FilterMode, term: string)
    requires FaithfulEntries(ts, es) && StablySorted(mode, es)
    ensures StableView(mode, ts, ShownPositions(es, f, term))
  {
    if es != [] {
      var init := es[..|es| - 1];
      var e := es[|es| - 1];
      ShownPositionsOrdered(mode, ts, init, f, term);
      ShownPositionsMembers(init, f, term);
      var v0 := ShownPositions(init, f, term);
      var v := ShownPositions(es, f, term);
      if Shown(f, term, e.task) {
        forall i | 0 <= i < |v0| ensures InViewOrder(mode, ts, v0[i], e.pos) {
          assert v0[i] in v0;
          var d :| d in init && d.pos == v0[i] && Shown(f, term, d.task);
          var k :| 0 <= k < |init| && init[k] == d;
          assert es[k] == d;
          assert InOrder(mode, es[k], es[|es| - 1]);
          assert ts[d.pos] == d.task && ts[e.pos] == e.task;
        }
        assert v == v0 + [e.pos as int];
        forall i, j | 0 <= i < j < |v| ensures InViewOrder(mode, ts, v[i], v[j]) {
          if j < |v0| {
            assert v[i] == v0[i] && v[j] == v0[j];
          } else {
            assert v[i] == v0[i] && v[j] == e.pos;
          }
        }
      } else {
        assert v == v0;
      }
    }
  }

  /** Membership: with unique ids, a position is in the view exactly when it is a position of
      the list whose task passes the filter mode and the search. */
  lemma ViewMembers(ts: seq<Task>, f: FilterMode, mode: SortMode, term: string)
    requires UniqueIds(ts)
    ensures forall p :: p in ViewIndices(ts, f, mode, term) <==> 0 <= p < |ts| && Shown(f, term, ts[p])
  {
    var es := SortEntries(mode, Entries(ts));
    SortEntriesSpec(mode, ts);
    IndicesAreShownPositions(ts, es, f, term);
    ShownPositionsMembers(es, f, term);
    forall p | 0 <= p < |ts| && Shown(f, term, ts[p]) ensures p in ViewIndices(ts, f, mode, term) {
      assert Entries(ts)[p] == Entry(p, ts[p]);
      assert Entry(p, ts[p]) in multiset(Entries(ts));
      assert Entry(p, ts[p]) in es;
    }
    forall p | p in ViewIndices(ts, f, mode, term) ensures 0 <= p < |ts| && Shown(f, term, ts[p]) {
      var e :| e in es && e.pos == p && Shown(f, term, e.task);
      var k :| 0 <= k < |es| && es[k] == e;
    }
  }

  /** Order: with unique ids, the view lists positions in the stable order of the sort mode,
      so no position appears twice. */
  lemma ViewOrdered(ts: seq<Task>, f: FilterMode, mode: SortMode, term: string)
    requires UniqueIds(ts)
    ensures StableView(mode, ts, ViewIndices(ts, f, mode, term))
    ensures forall i, j :: 0 <= i < j < |ViewIndices(ts, f, mode, term)| ==>
      ViewIndices(ts, f, mode, term)[i] != ViewIndices(ts, f, mode, term)[j]
  {
    var es := SortEntries(mode, Entries(ts));
    SortEntriesSpec(mode, ts);
    IndicesAreShownPositions(ts, es, f, term);
    ShownPositionsOrdered(mode, ts, es, f, term);
    var v := ViewIndices(ts, f, mode, term);
    forall i, j | 0 <= i < j < |v| ensures v[i] != v[j] {
      assert InViewOrder(mode, ts, v[i], v[j]);
      BeforeIrreflexive(mode, ts[v[i]]);
    }
  }

  /** The default sort keeps the list order. */
  lemma DefaultViewKeepsListOrder(ts: seq<Task>, f: FilterMode, term: string)
    requires UniqueIds(ts)
    ensures forall i, j :: 0 <= i < j < |ViewIndices(ts, f, Default, term)| ==>
      ViewIndices(ts, f, Default, term)[i] < ViewIndices(ts, f, Default, term)[j]
  {
    ViewOrdered(ts, f, Default, term);
    var v := ViewIndices(ts, f, Default, term);
    forall i, j | 0 <= i < j < |v| ensures v[i] < v[j] {
      assert InViewOrder(Default, ts, v[i], v[j]);
    }
  }

  /** Ranks of the tasks at positions `p` then `q` are in priority-sort order. */
  predicate PriorityOrder(ts: seq<Task>, p: int, q: int) {
    && 0 <= p < |ts| && 0 <= q < |ts|
    && (|| Rank(ts[p].priority) < Rank(ts[q].priority)
        || (Rank(ts[p].priority) == Rank(ts[q].priority) && p < q))
  }

  /** The priority sort: high, medium, low, unset; tasks of one rank keep their list order. */
  lemma PriorityViewOrder(ts: seq<Task>, f: FilterMode, term: string)
    requires UniqueIds(ts)
    ensures forall i, j :: 0 <= i < j < |ViewIndices(ts, f, ByPriority, term)| ==>
      PriorityOrder(ts, ViewIndices(ts, f, ByPriority, term)[i], ViewIndices(ts, f, ByPriority, term)[j])
  {
    ViewOrdered(ts, f, ByPriority, term);
    var v := ViewIndices(ts, f, ByPriority, term);
    forall i, j | 0 <= i < j < |v| ensures PriorityOrder(ts, v[i], v[j]) {
      assert InViewOrder(ByPriority, ts, v[i], v[j]);
    }
  }

  /** Tasks at positions `p` then `q` are in due-date-sort order: dated before undated, dates
      ascending as text, and undated tasks in list order. */
  predicate DueDateOrder(ts: seq<Task>, p: int, q: int) {
    && 0 <= p < |ts| && 0 <= q < |ts|
    && (HasDueDate(ts[q]) ==> HasDueDate(ts[p]))
    && (HasDueDate(ts[q]) ==> !LexLess(ts[q].dueDate.value, ts[p].dueDate.value))
    && (!HasDueDate(ts[p]) ==> p < q)
  }

  lemma DueDateViewOrder(ts: seq<Task>, f: FilterMode, term: string)
    requires UniqueIds(ts)
    ensures forall i, j :: 0 <= i < j < |ViewIndices(ts, f, ByDueDate, term)| ==>
      DueDateOrder(ts, ViewIndices(ts, f, ByDueDate, term)[i], ViewIndices(ts, f, ByDueDate, term)[j])
  {
    ViewOrdered(ts, f, ByDueDate, term);
    var v := ViewIndices(ts, f, ByDueDate, term);
    forall i, j | 0 <= i < j < |v| ensures DueDateOrder(ts, v[i], v[j]) {
      assert InViewOrder(ByDueDate, ts, v[i], v[j]);
    }
  }

  /** Tasks at positions `p` then `q` are in created-sort order: stamps ascending as text, equal
      stamps in list order. */
  predicate CreatedOrder(ts: seq<Task>, p: int, q: int) {
    && 0 <= p < |ts| && 0 <= q < |ts|
    && !LexLess(ts[q].createdAt, ts[p].createdAt)
    && (ts[p].createdAt == ts[q].createdAt ==> p < q)
  }

  lemma CreatedViewOrder(ts: seq<Task>, f: FilterMode, term: string)
    requires UniqueIds(ts)
    ensures forall i, j :: 0 <= i < j < |ViewIndices(ts, f, ByCreated, term)| ==>
      CreatedOrder(ts, ViewIndices(ts, f, ByCreated, term)[i], ViewIndices(ts, f, ByCreated, term)[j])
  {
    ViewOrdered(ts, f, ByCreated, term);
    var v := ViewIndices(ts, f, ByCreated, term);
    forall i, j | 0 <= i < j < |v| ensures CreatedOrder(ts, v[i], v[j]) {
      assert InViewOrder(ByCreated, ts, v[i], v[j]);
      LexLessIrreflexive(ts[v[i]].createdAt);
    }
  }

  // ---------------------------------------------------------------- the view and the counts

  /** The number of rows a filter mode shows when there is no search term. */
  function FilterCount(f: FilterMode, ts: seq<Task>): nat {
    match f
    case All => |ts|
    case Completed => CompletedCount(ts)
    case Uncompleted => |ts| - CompletedCount(ts)
  }

  lemma {:induction false} RowsFromCount(sorted: seq<Task>, f: FilterMode)
    ensures |RowsFrom(sorted, f, [])| == FilterCount(f, sorted)
  {
    if sorted != [] {
      RowsFromCount(sorted[..|sorted| - 1], f);
    }
  }

  lemma CompletedCountCons(e: Entry, s: seq<Entry>)
    ensures CompletedCount(TasksOf([e] + s)) == Bit(e.task.completed) + CompletedCount(TasksOf(s))
  {
    assert TasksOf([e] + s) == [e.task] + TasksOf(s);
    CompletedCountConcat([e.task], TasksOf(s));
    CompletedCountSingle(e.task);
  }

  /** Inserting an entry adds that entry's contribution to the completed count. */
  lemma {:induction false} InsertKeepsCompletedCount(mode: SortMode, e: Entry, s: seq<Entry>)
    ensures CompletedCount(TasksOf(Insert(mode, e, s))) == Bit(e.task.completed) + CompletedCount(TasksOf(s))
  {
    if s == [] {
      CompletedCountCons(e, s);
    } else if !Before(mode, s[0].task, e.task) {
      CompletedCountCons(e, s);
    } else {
      InsertKeepsCompletedCount(mode, e, s[1..]);
      CompletedCountCons(s[0], Insert(mode, e, s[1..]));
      CompletedCountCons(s[0], s[1..]);
      assert s == [s[0]] + s[1..];
    }
  }

  /** Sorting does not change how many tasks are completed. */
  lemma {:induction false} SortKeepsCompletedCount(mode: SortMode, s: seq<Entry>)
    ensures CompletedCount(TasksOf(SortEntries(mode, s))) == CompletedCount(TasksOf(s))
    decreases |s|
  {
    if mode != Default && s != [] {
      SortKeepsCompletedCount(mode, s[1..]);
      InsertKeepsCompletedCount(mode, s[0], InsertionSort(mode, s[1..]));
      CompletedCountCons(s[0], s[1..]);
      assert s == [s[0]] + s[1..];
    }
  }

  /** With no search term, the number of rows matches the status bar: every task under the
      `all` filter, the completed count under `completed`, the rest under `uncompleted`. */
  lemma ViewCountMatchesStatus(ts: seq<Task>, f: FilterMode, mode: SortMode)
    ensures |ViewIndices(ts, f, mode, [])| == FilterCount(f, ts)
  {
    var es := SortEntries(mode, Entries(ts));
    var sorted := SortedCopy(mode, ts);
    ViewAligned(ts, f, mode, []);
    RowsFromCount(sorted, f);
    SortEntriesSpec(mode, ts);
    SortKeepsCompletedCount(mode, Entries(ts));
    assert TasksOf(Entries(ts)) == ts;
    assert |es| == |multiset(es)| == |multiset(Entries(ts))| == |ts|;
    assert CompletedCount(sorted) == CompletedCount(ts);
  }
}
