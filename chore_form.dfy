/** The chore editor's record construction (chore-app/src/components/ChoreForm/ChoreForm.tsx):
    the values of the form fields, the chore a submission saves, the interval fallback
    and the weekday toggle. The field values are kept as the form holds them: text as
    typed, an empty select or date input as the empty string (here `None` for dates). */
module ChoreForm {
  import opened Types
  import opened Seqs
  import opened RecurrenceEngine

  // ---------------------------------------------------------------------------
  // String.prototype.trim

  /** The characters `trim` removes: ECMAScript white space and line terminators. */
  predicate IsJsWhitespace(ch: char) {
    || ch == '\t' || ch == '\n' || ch == '\U{000B}' || ch == '\U{000C}' || ch == '\r'
    || ch == ' ' || ch == '\U{00A0}' || ch == '\U{1680}'
    || ('\U{2000}' <= ch <= '\U{200A}')
    || ch == '\U{2028}' || ch == '\U{2029}' || ch == '\U{202F}' || ch == '\U{205F}'
    || ch == '\U{3000}' || ch == '\U{FEFF}'
  }

  predicate AllWhitespace(s: string) {
    forall i :: 0 <= i < |s| ==> IsJsWhitespace(s[i])
  }

  /** `s` with its leading white space removed. */
  function TrimStart(s: string): (r: string)
    ensures |r| <= |s| && r == s[|s| - |r|..]
    ensures AllWhitespace(s[..|s| - |r|])
    ensures r == [] || !IsJsWhitespace(r[0])
    decreases |s|
  {
    if s != [] && IsJsWhitespace(s[0]) then TrimStart(s[1..]) else s
  }

  /** `s` with its trailing white space removed. */
  function TrimEnd(s: string): (r: string)
    ensures |r| <= |s| && r == s[..|r|]
    ensures AllWhitespace(s[|r|..])
    ensures r == [] || !IsJsWhitespace(r[|r| - 1])
    decreases |s|
  {
    if s != [] && IsJsWhitespace(s[|s| - 1]) then
      var r := TrimEnd(s[..|s| - 1]);
      assert s[|r|..] == s[..|s| - 1][|r|..] + [s[|s| - 1]];
      r
    else s
  }

  /** `s.trim()`: neither starts nor ends with white space. */
  function Trim(s: string): (r: string)
    ensures |r| <= |s|
    ensures r == [] || (!IsJsWhitespace(r[0]) && !IsJsWhitespace(r[|r| - 1]))
  {
    TrimEnd(TrimStart(s))
  }

  /** Where the trimmed text starts in the original. */
  function TrimOffset(s: string): (i: nat)
    ensures i <= |s|
  {
    |s| - |TrimStart(s)|
  }

  /** The trimmed text is the piece of `s` at `TrimOffset(s)`, and only white space is
      cut on either side of it. */
  lemma TrimCutsOnlyWhitespace(s: string)
    ensures TrimOffset(s) + |Trim(s)| <= |s|
    ensures Trim(s) == s[TrimOffset(s)..TrimOffset(s) + |Trim(s)|]
    ensures AllWhitespace(s[..TrimOffset(s)])
    ensures AllWhitespace(s[TrimOffset(s) + |Trim(s)|..])
  {
    var t := TrimStart(s);
    var r := Trim(s);
    var i := TrimOffset(s);
    assert s[i..i + |r|] == t[..|r|];
    assert s[i + |r|..] == t[|r|..];
  }

  /** Neither starts nor ends with white space. */
  predicate Trimmed(s: string) {
    s == [] || (!IsJsWhitespace(s[0]) && !IsJsWhitespace(s[|s| - 1]))
  }

  /** Trimming removes nothing from a string that neither starts nor ends with white space. */
  lemma TrimKeepsTrimmed(s: string)
    requires Trimmed(s)
    ensures Trim(s) == s
  {
    assert TrimStart(s) == s;
    assert TrimEnd(s) == s;
  }

  /** Trimming twice is trimming once. */
  lemma TrimIdempotent(s: string)
    ensures Trim(Trim(s)) == Trim(s)
  {
    TrimKeepsTrimmed(Trim(s));
  }

  /** A string trims to nothing exactly when it is all white space. */
  lemma TrimEmptyIffBlank(s: string)
    ensures Trim(s) == [] <==> AllWhitespace(s)
  {
    TrimCutsOnlyWhitespace(s);
    var i, r := TrimOffset(s), Trim(s);
    if r != [] {
      assert r[0] == s[i];
    } else {
      assert s[..i] == s;
    }
  }

  // ---------------------------------------------------------------------------
  // The form

  /** The values of the form's controls. */
  datatype Form = Form(
    title: string,
    description: string,
    assigneeId: string,
    category: Category,
    priority: Priority,
    dueDate: Option<Day>,
    recurrenceType: RecurrenceType,
    recurrenceInterval: int,
    daysOfWeek: seq<int>,
    endDate: Option<Day>)

  /** The controls of a new chore: empty texts and defaults, and the due date set to the
      selected calendar day or else today. */
  function NewForm(initialDate: Option<Day>, today: Day): (f: Form)
    ensures f.title == "" && f.description == "" && f.assigneeId == ""
    ensures f.category == Other && f.priority == Medium
    ensures f.recurrenceType == NotRecurring && f.recurrenceInterval == 1 && f.daysOfWeek == []
    ensures f.endDate == None
    ensures f.dueDate == Some(if initialDate.Some? then initialDate.value else today)
  {
    Form("", "", "", Other, Medium,
         Some(if initialDate.Some? then initialDate.value else today),
         NotRecurring, 1, [], None)
  }

  /** Filling in only a non-blank title of a new form saves a one-off chore, due on the
      selected day or else today, with no completions; it can be expanded over any window
      and appears exactly in the windows that contain its due date. */
  lemma NewFormSavesOneOffChore(initialDate: Option<Day>, today: Day, title: string,
                                freshId: ChoreId, now: Timestamp, lo: Day, hi: Day)
    requires !AllWhitespace(title)
    ensures var saved := Submit(NewForm(initialDate, today).(title := title), None, freshId, now);
      && saved.Some?
      && saved.value.recurrence.kind == NotRecurring
      && saved.value.dueDate == (if initialDate.Some? then initialDate.value else today)
      && saved.value.completedDates == [] && saved.value.assigneeId.None?
      && Expandable(saved.value, lo, hi)
      && ChoreDates(saved.value, lo, hi)
         == (if lo <= saved.value.dueDate <= hi then [saved.value.dueDate] else [])
  {
  }

  /** The controls loaded from the chore being edited; a missing assignee shows as the
      empty selection. */
  function FormFor(c: Chore): (f: Form)
    ensures f.title == c.title && f.description == c.description
    ensures f.dueDate == Some(c.dueDate) && f.endDate == c.recurrence.endDate
    ensures f.assigneeId == (if c.assigneeId.Some? then c.assigneeId.value else "")
    ensures f.category == c.category && f.priority == c.priority
    ensures f.recurrenceType == c.recurrence.kind && f.recurrenceInterval == c.recurrence.interval
    ensures f.daysOfWeek == c.recurrence.daysOfWeek
  {
    Form(c.title, c.description,
         if c.assigneeId.Some? then c.assigneeId.value else "",
         c.category, c.priority, Some(c.dueDate),
         c.recurrence.kind, c.recurrence.interval, c.recurrence.daysOfWeek, c.recurrence.endDate)
  }

  /** `handleSubmit`: nothing is saved when the title is blank or the due date is empty;
      otherwise the chore built from the controls, keeping the edited chore's id,
      completions and creation time. `freshId` and `now` stand for the generated id and
      the current time. */
  function Submit(f: Form, editing: Option<Chore>, freshId: ChoreId, now: Timestamp): (r: Option<Chore>)
    ensures r.None? <==> AllWhitespace(f.title) || f.dueDate.None?
    ensures r.Some? ==>
      && r.value.title == Trim(f.title) && r.value.title != []
      && r.value.description == Trim(f.description)
      && r.value.dueDate == f.dueDate.value
      && r.value.category == f.category && r.value.priority == f.priority
      && r.value.recurrence == Recurrence(f.recurrenceType, f.recurrenceInterval, f.daysOfWeek, f.endDate)
      && (r.value.assigneeId.None? <==> f.assigneeId == "")
      && (r.value.assigneeId.Some? ==> r.value.assigneeId.value == f.assigneeId)
    ensures r.Some? && editing.Some? ==>
      && r.value.completedDates == editing.value.completedDates
      && (editing.value.id != "" ==> r.value.id == editing.value.id)
      && (editing.value.createdAt != "" ==> r.value.createdAt == editing.value.createdAt)
      && (editing.value.id == "" ==> r.value.id == freshId)
      && (editing.value.createdAt == "" ==> r.value.createdAt == now)
    ensures r.Some? && editing.None? ==>
      r.value.id == freshId && r.value.completedDates == [] && r.value.createdAt == now
  {
    TrimEmptyIffBlank(f.title);
    var title := Trim(f.title);
    if title == [] || f.dueDate.None? then None
    else
      Some(Chore(
        if editing.Some? && editing.value.id != "" then editing.value.id else freshId,
        title,
        Trim(f.description),
        if f.assigneeId == "" then None else Some(f.assigneeId),
        f.category,
        f.priority,
        f.dueDate.value,
        Recurrence(f.recurrenceType, f.recurrenceInterval, f.daysOfWeek, f.endDate),
        if editing.Some? then editing.value.completedDates else [],
        if editing.Some? && editing.value.createdAt != "" then editing.value.createdAt else now))
  }

  /** The stored form of a chore the editor reproduces: trimmed, non-blank title, trimmed
      description, a non-empty id and creation time, and no assignee stored as the
      empty string. */
  predicate Normalised(c: Chore) {
    && c.title != [] && Trimmed(c.title) && Trimmed(c.description)
    && c.id != "" && c.createdAt != ""
    && c.assigneeId != Some("")
  }

  /** Opening a normalised chore in the editor and saving without touching a control
      saves the same chore. */
  lemma EditWithoutChangesSavesSameChore(c: Chore, freshId: ChoreId, now: Timestamp)
    requires Normalised(c)
    ensures Submit(FormFor(c), Some(c), freshId, now) == Some(c)
  {
    TrimKeepsTrimmed(c.title);
    TrimKeepsTrimmed(c.description);
    TrimEmptyIffBlank(c.title);
  }

  /** Every chore the editor saves is normalised, given a non-empty generated id and
      timestamp; so saving it again unchanged is a fixed point. */
  lemma SavedChoreIsNormalised(f: Form, editing: Option<Chore>, freshId: ChoreId, now: Timestamp)
    requires Submit(f, editing, freshId, now).Some?
    requires freshId != "" && now != ""
    ensures Normalised(Submit(f, editing, freshId, now).value)
  {
    var saved := Submit(f, editing, freshId, now).value;
    assert Trimmed(saved.title) && Trimmed(saved.description);
    if editing.None? {
      assert saved.id == freshId && saved.createdAt == now;
    } else {
      assert saved.id == editing.value.id || saved.id == freshId;
      assert saved.createdAt == editing.value.createdAt || saved.createdAt == now;
    }
  }

  /** Saving a chore and opening it again shows the trimmed texts and the same dates. */
  lemma SubmitThenEditShowsSavedValues(f: Form, editing: Option<Chore>, freshId: ChoreId, now: Timestamp)
    requires Submit(f, editing, freshId, now).Some?
    ensures var g := FormFor(Submit(f, editing, freshId, now).value);
      && g.title == Trim(f.title) && g.description == Trim(f.description)
      && g.assigneeId == f.assigneeId && g.dueDate == f.dueDate && g.endDate == f.endDate
      && g.recurrenceType == f.recurrenceType && g.recurrenceInterval == f.recurrenceInterval
      && g.daysOfWeek == f.daysOfWeek
  {
  }

  // ---------------------------------------------------------------------------
  // The interval input and the weekday buttons

  /** `parseInt(value) || 1`: an unparseable (NaN, here `None`) or zero input falls back
      to 1; any other integer, negative ones included, is kept. */
  function IntervalInput(parsed: Option<int>): (n: int)
    ensures n != 0
    ensures parsed.None? || parsed.value == 0 ==> n == 1
    ensures parsed.Some? && parsed.value != 0 ==> n == parsed.value
  {
    if parsed.None? || parsed.value == 0 then 1 else parsed.value
  }

  /** An interval read from a non-negative input puts every window among the inputs on
      which the daily expansion is proved to end. */
  lemma IntervalInputExpandable(c: Chore, parsed: Option<int>, rangeStart: Day, rangeEnd: Day)
    requires parsed.Some? ==> parsed.value >= 0
    requires c.recurrence.interval == IntervalInput(parsed)
    ensures Expandable(c, rangeStart, rangeEnd)
  {
  }

  /** `toggleDayOfWeek`: the day is removed (every copy) when selected, appended when not. */
  function ToggleDayOfWeek(days: seq<int>, day: int): (r: seq<int>)
    ensures day in r <==> day !in days
    ensures forall d :: d != day ==> (d in r <==> d in days)
    ensures day !in days ==> r == days + [day]
  {
    Toggle(days, day)
  }

  /** A duplicate-free selection stays duplicate-free, and a second press restores it. */
  lemma ToggleDayOfWeekTwice(days: seq<int>, day: int)
    requires NoDuplicates(days)
    ensures NoDuplicates(ToggleDayOfWeek(days, day))
    ensures forall d :: d in ToggleDayOfWeek(ToggleDayOfWeek(days, day), day) <==> d in days
  {
    ToggleKeepsNoDuplicates(days, day);
    ToggleTwice(days, day);
  }
}
