/** The task record (`ITask`) and the per-task edits the task manager applies to it: the
    priority cycle, the due-date check, the tags parser, and facts about the whole list
    (unique ids, the completed count) that the commands keep. */
module TaskModel {
  import opened Text

  datatype Option<T> = None | Some(value: T)

  datatype Priority = High | Medium | Low

  /** One task. `priority` is optional because tasks read back from the file may lack it;
      `dueDate` and `tags` are optional fields. */
  datatype Task = Task(
    id: int,
    description: string,
    completed: bool,
    createdAt: string,
    priority: Option<Priority>,
    dueDate: Option<string>,
    tags: Option<seq<string>>)

  /** The record `addTask` pushes: not completed, medium priority, no due date, no tags. */
  function NewTask(id: int, description: string, createdAt: string): (t: Task)
    ensures t.id == id && t.description == description && t.createdAt == createdAt
    ensures !t.completed && t.priority == Some(Medium)
    ensures t.dueDate == None && t.tags == None
  {
    Task(id, description, false, createdAt, Some(Medium), None, None)
  }

  // ---------------------------------------------------------------- completion

  function Toggled(t: Task): (r: Task)
    ensures r.completed == !t.completed
    ensures r.(completed := t.completed) == t
  {
    t.(completed := !t.completed)
  }

  /** Toggling twice gives the task back. */
  lemma ToggledTwice(t: Task)
    ensures Toggled(Toggled(t)) == t
  {
  }

  // ---------------------------------------------------------------- priority

  /** One press of the priority key: unset or high becomes low, low becomes medium,
      medium becomes high. */
  function NextPriority(p: Option<Priority>): Priority {
    match p
    case None => Low
    case Some(High) => Low
    case Some(Low) => Medium
    case Some(Medium) => High
  }

  function CyclePriority(t: Task): (r: Task)
    ensures r.priority.Some? && (t.priority.Some? ==> r.priority.value != t.priority.value)
    ensures r.(priority := t.priority) == t
  {
    t.(priority := Some(NextPriority(t.priority)))
  }

  /** The cycle has length three: three presses restore a set priority, and from an unset
      priority the fourth press gives what the first gave. */
  lemma PriorityCycleOfThree(t: Task)
    ensures t.priority.Some? ==> CyclePriority(CyclePriority(CyclePriority(t))) == t
    ensures CyclePriority(CyclePriority(CyclePriority(CyclePriority(t)))) == CyclePriority(t)
    ensures CyclePriority(t) != t && CyclePriority(CyclePriority(t)) != t
  {
  }

  // ---------------------------------------------------------------- description

  function WithDescription(t: Task, description: string): (r: Task)
    ensures r.description == description && r.(description := t.description) == t
  {
    t.(description := description)
  }

  // ---------------------------------------------------------------- due date

  /** The test `/^\d{4}-\d{2}-\d{2}$/`: ten characters, digits except for the dashes at
      offsets 4 and 7. There is no check that the month or the day exists. */
  predicate IsDateFormat(s: string) {
    && |s| == 10
    && IsDigit(s[0]) && IsDigit(s[1]) && IsDigit(s[2]) && IsDigit(s[3])
    && s[4] == '-'
    && IsDigit(s[5]) && IsDigit(s[6])
    && s[7] == '-'
    && IsDigit(s[8]) && IsDigit(s[9])
  }

  /** What submitting the due-date dialog does with its input. */
  datatype DueDateEdit = ClearDueDate | SetDueDate(date: string) | RejectDueDate

  function ParseDueDate(input: string): (r: DueDateEdit)
    ensures r == ClearDueDate <==> Trim(input) == []
    ensures r.SetDueDate? <==> IsDateFormat(Trim(input))
    ensures r.SetDueDate? ==> r.date == Trim(input)
  {
    var value := Trim(input);
    if value == [] then ClearDueDate
    else if IsDateFormat(value) then SetDueDate(value)
    else RejectDueDate
  }

  /** The task after the edit: cleared, set, or (when rejected) untouched. */
  function ApplyDueDate(t: Task, e: DueDateEdit): (r: Task)
    ensures e.RejectDueDate? ==> r == t
    ensures e.ClearDueDate? ==> r.dueDate.None?
    ensures e.SetDueDate? ==> r.dueDate == Some(e.date)
    ensures r.(dueDate := t.dueDate) == t
  {
    match e
    case ClearDueDate => t.(dueDate := None)
    case SetDueDate(d) => t.(dueDate := Some(d))
    case RejectDueDate => t
  }

  predicate HasWellFormedDueDate(t: Task) {
    t.dueDate.None? || IsDateFormat(t.dueDate.value)
  }

  /** Every due date in the list passes the format test. */
  predicate DueDatesWellFormed(ts: seq<Task>) {
    forall k :: 0 <= k < |ts| ==> HasWellFormedDueDate(ts[k])
  }

  /** The dialog never stores a due date that fails the format test. */
  lemma DueDateStaysWellFormed(ts: seq<Task>, i: nat, input: string)
    requires i < |ts| && DueDatesWellFormed(ts)
    ensures DueDatesWellFormed(ts[i := ApplyDueDate(ts[i], ParseDueDate(input))])
  {
  }

  /** Years, months and days as written, without calendar validation. */
  datatype Date = Date(year: nat, month: nat, day: nat)

  function DateFields(s: string): (d: Date)
    requires IsDateFormat(s)
    ensures d.year < 10000 && d.month < 100 && d.day < 100
  {
    Date(DigitsValue(s[0..4]), DigitsValue(s[5..7]), DigitsValue(s[8..10]))
  }

  predicate DateBefore(a: Date, b: Date) {
    || a.year < b.year
    || (a.year == b.year && a.month < b.month)
    || (a.year == b.year && a.month == b.month && a.day < b.day)
  }

  /** The format test lets through dates no calendar has. */
  lemma NoCalendarCheck()
    ensures IsDateFormat("2024-13-99") && DateFields("2024-13-99") == Date(2024, 13, 99)
  {
    assert "2024-13-99"[0..4] == "2024";
    assert "2024-13-99"[5..7] == "13";
    assert "2024-13-99"[8..10] == "99";
  }

  /** On strings that pass the format test, comparing the text compares year, then month,
      then day: ordering due dates as strings orders them by date. */
  lemma DateTextOrder(a: string, b: string)
    requires IsDateFormat(a) && IsDateFormat(b)
    ensures LexLess(a, b) <==> DateBefore(DateFields(a), DateFields(b))
  {
    DateTextFields(a, b);
    LexLessDigits(a[0..4], b[0..4]);
    DigitsValueInjective(a[0..4], b[0..4]);
    LexLessDigits(a[5..7], b[5..7]);
    DigitsValueInjective(a[5..7], b[5..7]);
    LexLessDigits(a[8..10], b[8..10]);
  }

  /** Comparing two well-formed dates as text compares the year digits, then the month
      digits, then the day digits; the dashes always agree. */
  lemma DateTextFields(a: string, b: string)
    requires IsDateFormat(a) && IsDateFormat(b)
    ensures LexLess(a, b) <==>
      || LexLess(a[0..4], b[0..4])
      || (a[0..4] == b[0..4] && LexLess(a[5..7], b[5..7]))
      || (a[0..4] == b[0..4] && a[5..7] == b[5..7] && LexLess(a[8..10], b[8..10]))
  {
    assert a == a[0..4] + a[4..] && b == b[0..4] + b[4..];
    LexLessConcat(a[0..4], a[4..], b[0..4], b[4..]);
    MonthDayText(a[4..], b[4..]);
    assert a[4..][1..3] == a[5..7] && b[4..][1..3] == b[5..7];
    assert a[4..][4..6] == a[8..10] && b[4..][4..6] == b[8..10];
  }

  /** The tail `-MM-DD` of a date: the month digits decide, then the day digits. */
  lemma MonthDayText(x: string, y: string)
    requires |x| == 6 && |y| == 6 && x[0] == y[0] && x[3] == y[3]
    ensures LexLess(x, y) <==> LexLess(x[1..3], y[1..3]) || (x[1..3] == y[1..3] && LexLess(x[4..6], y[4..6]))
  {
    assert x[1..] == x[1..3] + x[3..] && y[1..] == y[1..3] + y[3..];
    LexLessConcat(x[1..3], x[3..], y[1..3], y[3..]);
    assert x[3..][1..] == x[4..6] && y[3..][1..] == y[4..6];
  }

  // ---------------------------------------------------------------- tags

  /** A tag as the parser produces it: non-empty, comma-free, trimmed. */
  predicate IsTag(t: string) {
    t != [] && ',' !in t && IsTrimmed(t)
  }

  function TrimEach(parts: seq<string>): (r: seq<string>)
    ensures |r| == |parts|
  {
    seq(|parts|, k requires 0 <= k < |parts| => Trim(parts[k]))
  }

  /** The `.filter((t) => t)` step: the non-empty strings, in order. */
  function NonEmpty(parts: seq<string>): (r: seq<string>)
    ensures |r| <= |parts|
    ensures forall k :: 0 <= k < |r| ==> r[k] != [] && r[k] in parts
    ensures forall k :: 0 <= k < |parts| && parts[k] != [] ==> parts[k] in r
    ensures (forall k :: 0 <= k < |parts| ==> parts[k] != []) ==> r == parts
  {
    if parts == [] then []
    else
      var rest := NonEmpty(parts[1..]);
      assert forall k :: 1 <= k < |parts| ==> parts[k] == parts[1..][k - 1];
      if parts[0] == [] then rest else [parts[0]] + rest
  }

  /** A strictly increasing sequence of positions in a sequence of length `n`. */
  predicate Picks(idx: seq<nat>, n: nat) {
    (forall k :: 0 <= k < |idx| ==> idx[k] < n) &&
    (forall k, l :: 0 <= k < l < |idx| ==> idx[k] < idx[l])
  }

  /** `r` holds the strings of `parts` at the increasing positions `idx`, and those positions
      are exactly the ones holding a non-empty string. */
  predicate PicksNonEmpty(parts: seq<string>, r: seq<string>, idx: seq<nat>) {
    && Picks(idx, |parts|) && |idx| == |r|
    && (forall k :: 0 <= k < |idx| ==> r[k] == parts[idx[k]])
    && (forall j :: 0 <= j < |parts| ==> (j in idx <==> parts[j] != []))
  }

  /** `NonEmpty` keeps the order of its input and drops exactly the empty strings. */
  lemma {:induction false} NonEmptyPicks(parts: seq<string>) returns (idx: seq<nat>)
    ensures PicksNonEmpty(parts, NonEmpty(parts), idx)
  {
    if parts == [] {
      idx := [];
    } else {
      var tail := NonEmptyPicks(parts[1..]);
      if parts[0] == [] {
        idx := PickSkip(parts, NonEmpty(parts[1..]), tail);
      } else {
        idx := PickKeep(parts, NonEmpty(parts[1..]), tail);
      }
    }
  }

  lemma PickSkip(parts: seq<string>, rest: seq<string>, tail: seq<nat>) returns (idx: seq<nat>)
    requires parts != [] && parts[0] == [] && PicksNonEmpty(parts[1..], rest, tail)
    ensures PicksNonEmpty(parts, rest, idx)
  {
    idx := ShiftPicks(tail, |parts| - 1);
    forall k | 0 <= k < |idx| ensures rest[k] == parts[idx[k]] {
      assert rest[k] == parts[1..][tail[k]];
    }
    forall j | 0 <= j < |parts| ensures j in idx <==> parts[j] != [] {
      if j > 0 {
        assert parts[j] == parts[1..][j - 1];
      }
    }
  }

  lemma PickKeep(parts: seq<string>, rest: seq<string>, tail: seq<nat>) returns (idx: seq<nat>)
    requires parts != [] && parts[0] != [] && PicksNonEmpty(parts[1..], rest, tail)
    ensures PicksNonEmpty(parts, [parts[0]] + rest, idx)
  {
    var shifted := ShiftPicks(tail, |parts| - 1);
    idx := [0] + shifted;
    var r := [parts[0]] + rest;
    forall k, l | 0 <= k < l < |idx| ensures idx[k] < idx[l] {
      assert idx[l] == shifted[l - 1];
      if k > 0 { assert idx[k] == shifted[k - 1]; }
    }
    forall k | 0 <= k < |idx| ensures r[k] == parts[idx[k]] {
      if k > 0 {
        assert r[k] == rest[k - 1] == parts[1..][tail[k - 1]];
      }
    }
    forall j | 0 <= j < |parts| ensures j in idx <==> parts[j] != [] {
      if j > 0 {
        assert parts[j] == parts[1..][j - 1];
        assert j in idx <==> j in shifted;
      }
    }
  }

  /** Moving every position of a pick one place on, to pick from a sequence one longer. */
  lemma ShiftPicks(tail: seq<nat>, n: nat) returns (shifted: seq<nat>)
    requires Picks(tail, n)
    ensures Picks(shifted, n + 1) && |shifted| == |tail| && 0 !in shifted
    ensures forall k :: 0 <= k < |tail| ==> shifted[k] == tail[k] + 1
    ensures forall j :: 1 <= j <= n ==> (j in shifted <==> j - 1 in tail)
  {
    shifted := seq(|tail|, k requires 0 <= k < |tail| => tail[k] + 1);
    forall j | 1 <= j <= n ensures j in shifted <==> j - 1 in tail {
      if j - 1 in tail {
        var k :| 0 <= k < |tail| && tail[k] == j - 1;
        assert shifted[k] == j;
      }
    }
  }

  lemma TrimKeepsChars(s: string, c: char)
    requires c in Trim(s)
    ensures c in s
  {
    var i := TrimIsSlice(s);
    var r := Trim(s);
    var k :| 0 <= k < |r| && r[k] == c;
    assert s[i + k] == c;
  }

  /** The tags dialog: a blank input gives no tags; otherwise the comma-separated segments of
      the trimmed input, each trimmed, without the empty ones. */
  function ParseTags(input: string): (r: seq<string>)
    ensures forall k :: 0 <= k < |r| ==> IsTag(r[k])
    ensures Trim(input) == [] ==> r == []
    ensures forall k :: 0 <= k < |Split(Trim(input))| && Trim(Split(Trim(input))[k]) != [] ==>
      Trim(Split(Trim(input))[k]) in r
  {
    var value := Trim(input);
    if value != [] then
      var parts := Split(value);
      TrimEachCommaFree(parts);
      assert forall k :: 0 <= k < |parts| ==> TrimEach(parts)[k] == Trim(parts[k]);
      NonEmpty(TrimEach(parts))
    else
      assert Split(value) == [[]];
      []
  }

  /** The tags are the trimmed comma-separated segments of the trimmed input, in their order,
      with exactly the empty ones dropped. */
  lemma ParseTagsSegments(input: string) returns (idx: seq<nat>)
    ensures PicksNonEmpty(TrimEach(Split(Trim(input))), ParseTags(input), idx)
  {
    var segments := Split(Trim(input));
    if Trim(input) != [] {
      idx := NonEmptyPicks(TrimEach(segments));
    } else {
      assert segments == [[]];
      idx := [];
    }
  }

  lemma TrimEachCommaFree(parts: seq<string>)
    requires forall k :: 0 <= k < |parts| ==> ',' !in parts[k]
    ensures forall k :: 0 <= k < |parts| ==> ',' !in TrimEach(parts)[k] && IsTrimmed(TrimEach(parts)[k])
  {
    forall k | 0 <= k < |parts| ensures ',' !in TrimEach(parts)[k] {
      if ',' in TrimEach(parts)[k] {
        TrimKeepsChars(parts[k], ',');
      }
    }
  }

  function WithTags(t: Task, input: string): (r: Task)
    ensures r.tags == Some(ParseTags(input)) && r.(tags := t.tags) == t
  {
    t.(tags := Some(ParseTags(input)))
  }

  /** The join of parser-made tags starts with the first tag's first character and ends with
      the last tag's last character. */
  lemma {:induction false} JoinEnds(tags: seq<string>)
    requires |tags| >= 1 && forall k :: 0 <= k < |tags| ==> IsTag(tags[k])
    ensures Join(tags) != [] && IsTrimmed(Join(tags))
  {
    assert IsTag(tags[0]);
    if |tags| > 1 {
      JoinEnds(tags[1..]);
      var rest := Join(tags[1..]);
      var text := tags[0] + [','] + rest;
      assert Join(tags) == text;
      assert text[0] == tags[0][0];
      assert text[|text| - 1] == rest[|rest| - 1];
    }
  }

  /** The dialog opens holding `tags.join(",")`; submitting that text unchanged gives the
      same tags back. */
  lemma {:induction false} TagsRoundTrip(tags: seq<string>)
    requires forall k :: 0 <= k < |tags| ==> IsTag(tags[k])
    ensures ParseTags(Join(tags)) == tags
  {
    if tags != [] {
      var text := Join(tags);
      JoinEnds(tags);
      TrimOfTrimmed(text);
      SplitJoin(tags);
      TrimEachOfTags(tags);
      assert forall k :: 0 <= k < |tags| ==> tags[k] != [];
      assert NonEmpty(tags) == tags;
      assert ParseTags(text) == NonEmpty(TrimEach(Split(text)));
    } else {
      assert Trim([]) == [];
    }
  }

  lemma TrimEachOfTags(tags: seq<string>)
    requires forall k :: 0 <= k < |tags| ==> IsTag(tags[k])
    ensures TrimEach(tags) == tags
  {
    forall k | 0 <= k < |tags| ensures TrimEach(tags)[k] == tags[k] {
      TrimOfTrimmed(tags[k]);
    }
  }

  // ---------------------------------------------------------------- the list

  predicate UniqueIds(ts: seq<Task>) {
    forall i, j :: 0 <= i < j < |ts| ==> ts[i].id != ts[j].id
  }

  predicate FreshId(ts: seq<Task>, id: int) {
    forall k :: 0 <= k < |ts| ==> ts[k].id != id
  }

  lemma UniqueIdsAppend(ts: seq<Task>, t: Task)
    requires UniqueIds(ts) && FreshId(ts, t.id)
    ensures UniqueIds(ts + [t])
  {
  }

  lemma UniqueIdsUpdate(ts: seq<Task>, i: nat, t: Task)
    requires i < |ts| && t.id == ts[i].id && UniqueIds(ts)
    ensures UniqueIds(ts[i := t])
  {
  }

  /** An edit that keeps a task's id and completed flag keeps ids unique and the count as it is. */
  lemma EditKeepsIdsAndCount(ts: seq<Task>, i: nat, t: Task)
    requires i < |ts| && t.id == ts[i].id && t.completed == ts[i].completed
    ensures UniqueIds(ts) ==> UniqueIds(ts[i := t])
    ensures CompletedCount(ts[i := t]) == CompletedCount(ts)
  {
    CompletedCountUpdate(ts, i, t);
  }

  lemma UniqueIdsRemove(ts: seq<Task>, i: nat)
    requires i < |ts| && UniqueIds(ts)
    ensures UniqueIds(ts[..i] + ts[i + 1..])
  {
    var r := ts[..i] + ts[i + 1..];
    forall a, b | 0 <= a < b < |r| ensures r[a].id != r[b].id {
      var a', b' := if a < i then a else a + 1, if b < i then b else b + 1;
      assert r[a] == ts[a'] && r[b] == ts[b'];
    }
  }

  /** `tasks.filter((t) => t.completed).length`. */
  function CompletedCount(ts: seq<Task>): (n: nat)
    ensures n <= |ts|
  {
    if ts == [] then 0
    else CompletedCount(ts[..|ts| - 1]) + (if ts[|ts| - 1].completed then 1 else 0)
  }

  function Bit(b: bool): nat {
    if b then 1 else 0
  }

  lemma {:induction false} CompletedCountConcat(a: seq<Task>, b: seq<Task>)
    ensures CompletedCount(a + b) == CompletedCount(a) + CompletedCount(b)
    decreases |b|
  {
    if b == [] {
      assert a + b == a;
    } else {
      CompletedCountConcat(a, b[..|b| - 1]);
      assert (a + b)[..|a + b| - 1] == a + b[..|b| - 1];
    }
  }

  lemma CompletedCountSingle(t: Task)
    ensures CompletedCount([t]) == Bit(t.completed)
  {
    assert [t][..0] == [];
  }

  /** Replacing one task changes the count by that task's contribution only. */
  lemma {:induction false} CompletedCountUpdate(ts: seq<Task>, i: nat, t: Task)
    requires i < |ts|
    ensures CompletedCount(ts[i := t]) + Bit(ts[i].completed) == CompletedCount(ts) + Bit(t.completed)
  {
    assert ts == ts[..i] + [ts[i]] + ts[i + 1..];
    assert ts[i := t] == ts[..i] + [t] + ts[i + 1..];
    CompletedCountConcat(ts[..i] + [ts[i]], ts[i + 1..]);
    CompletedCountConcat(ts[..i], [ts[i]]);
    CompletedCountConcat(ts[..i] + [t], ts[i + 1..]);
    CompletedCountConcat(ts[..i], [t]);
    CompletedCountSingle(ts[i]);
    CompletedCountSingle(t);
  }

  /** Removing one task lowers the count by one exactly when that task was completed. */
  lemma {:induction false} CompletedCountRemove(ts: seq<Task>, i: nat)
    requires i < |ts|
    ensures CompletedCount(ts[..i] + ts[i + 1..]) + Bit(ts[i].completed) == CompletedCount(ts)
  {
    var pre, x, post := ts[..i], ts[i], ts[i + 1..];
    calc {
      CompletedCount(ts);
      { assert ts == (pre + [x]) + post; }
      CompletedCount((pre + [x]) + post);
      { CompletedCountConcat(pre + [x], post); }
      CompletedCount(pre + [x]) + CompletedCount(post);
      { CompletedCountConcat(pre, [x]); CompletedCountSingle(x); }
      CompletedCount(pre) + Bit(x.completed) + CompletedCount(post);
      { CompletedCountConcat(pre, post); }
      CompletedCount(pre + post) + Bit(x.completed);
    }
  }
}
