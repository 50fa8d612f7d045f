/** The recurrence engine (chore-app/src/utils/recurrence.ts): expanding chores into
    their dated instances inside a window, and searching for a chore's next occurrence. */
module RecurrenceEngine {
  import opened Types
  import opened Seqs

  /** `getDay`: 0 = Sunday .. 6 = Saturday. Day 0 (1970-01-01) was a Thursday. */
  function Weekday(d: Day): (w: int)
    ensures 0 <= w < 7
  {
    (d + 4) % 7
  }

  /** JavaScript's `a % b === 0`. A remainder by zero is NaN, which equals nothing;
      otherwise the test is divisibility, whatever the rounding of the remainder. */
  predicate RemainderIsZero(a: int, b: int) {
    b != 0 && a % b == 0
  }

  function Abs(n: int): (m: nat)
    ensures m == n || m == -n
  {
    if n < 0 then -n else n
  }

  /** JavaScript's `a % b` on whole numbers: it truncates toward zero, so the remainder
      has the sign of the dividend and a magnitude below that of the divisor. */
  function JsRemainder(a: int, b: int): (r: int)
    requires b != 0
    ensures Abs(r) < Abs(b)
    ensures (a >= 0 ==> r >= 0) && (a <= 0 ==> r <= 0)
  {
    if a >= 0 then a % Abs(b) else -((-a) % Abs(b))
  }

  /** What JavaScript's remainder leaves off is a multiple of the divisor. */
  lemma JsRemainderDivides(a: int, b: int)
    requires b != 0
    ensures (a - JsRemainder(a, b)) % b == 0
  {
    var n, r := Abs(b), JsRemainder(a, b);
    if a >= 0 {
      MultipleRemainder(a - r, n, a / n);
    } else {
      MultipleRemainder(r - a, n, (-a) / n);
      DivisibleNeg(r - a, n);
      assert a - r == -(r - a);
    }
    DivisibleByAbs(a - r, b);
  }

  /** `x % b` is zero for every multiple `x` of a non-zero `b`. */
  lemma MultipleRemainder(x: int, b: int, q: int)
    requires b != 0 && x == q * b
    ensures x % b == 0
  {
    var q', rem := x / b, x % b;
    assert x == q' * b + rem && 0 <= rem < Abs(b);
    assert (q - q') * b == rem;
    if q - q' >= 1 {
      MulAbs(q - q', b);
    } else if q - q' <= -1 {
      MulAbs(q - q', b);
    }
  }

  lemma MulAbs(k: int, b: int)
    requires k != 0
    ensures Abs(k * b) >= Abs(b)
  {
    if k >= 1 && b >= 0 {
      MulMonotone(1, k, b);
    } else if k >= 1 {
      MulMonotone(1, k, -b);
    } else if b >= 0 {
      MulMonotone(1, -k, b);
    } else {
      MulMonotone(1, -k, -b);
    }
  }

  /** Divisibility does not depend on the divisor's sign. */
  lemma DivisibleByAbs(x: int, b: int)
    requires b != 0
    ensures x % b == 0 <==> x % Abs(b) == 0
  {
    if x % b == 0 {
      var q := x / b;
      assert x == q * b;
      MultipleRemainder(x, Abs(b), if b > 0 then q else -q);
    }
    if x % Abs(b) == 0 {
      var q := x / Abs(b);
      assert x == q * Abs(b);
      MultipleRemainder(x, b, if b > 0 then q else -q);
    }
  }

  /** Divisibility does not depend on the dividend's sign. */
  lemma DivisibleNeg(x: int, n: int)
    requires n != 0
    ensures x % n == 0 <==> (-x) % n == 0
  {
    if x % n == 0 {
      var q := x / n;
      assert x == q * n;
      MultipleRemainder(-x, n, -q);
    }
    if (-x) % n == 0 {
      var q := (-x) / n;
      assert -x == q * n;
      MultipleRemainder(x, n, -q);
    }
  }

  /** The test `x % interval === 0` of the source agrees with `RemainderIsZero` whatever
      the signs: JavaScript's truncating remainder is zero exactly when Dafny's is. */
  lemma RemainderIsZeroMatchesJs(a: int, b: int)
    ensures RemainderIsZero(a, b) <==> b != 0 && JsRemainder(a, b) == 0
  {
    if b != 0 {
      DivisibleByAbs(a, b);
      DivisibleNeg(a, Abs(b));
    }
  }

  predicate WithinEnd(r: Recurrence, d: Day) {
    r.endDate.None? || d <= r.endDate.value
  }

  /** The test `generateRecurringDates` applies to a day of the clipped window.
      Daily: the day is a whole number of steps after the anchor. Weekly: its weekday
      is selected and its week index since the anchor is a multiple of the interval,
      with an interval of 1 accepted outright. */
  predicate RecurringDay(r: Recurrence, due: Day, d: Day) {
    match r.kind
    case NotRecurring => false
    case Daily => due <= d && WithinEnd(r, d) && RemainderIsZero(d - due, r.interval)
    case Weekly =>
      && Weekday(d) in r.daysOfWeek
      && due <= d && WithinEnd(r, d)
      && (RemainderIsZero((d - due) / 7, r.interval) || r.interval == 1)
  }

  /** The later of the window start and the anchor. */
  function EffectiveStart(due: Day, rangeStart: Day): (s: Day)
    ensures s >= due && s >= rangeStart && (s == due || s == rangeStart)
  {
    if rangeStart > due then rangeStart else due
  }

  /** The earlier of the window end and the rule's end date, if any. */
  function EffectiveEnd(r: Recurrence, rangeEnd: Day): (e: Day)
    ensures e <= rangeEnd && WithinEnd(r, e)
    ensures e == rangeEnd || (r.endDate.Some? && e == r.endDate.value)
  {
    if r.endDate.Some? && r.endDate.value < rangeEnd then r.endDate.value else rangeEnd
  }

  /** The days of [lo, hi] that the rule makes due, ascending: the reference definition
      against which the expansion loops are proved. */
  function RecurringDates(r: Recurrence, due: Day, lo: Day, hi: Day): (ds: seq<Day>)
    ensures forall d :: d in ds <==> lo <= d <= hi && RecurringDay(r, due, d)
    ensures forall d :: d in ds ==> EffectiveStart(due, lo) <= d <= EffectiveEnd(r, hi)
    ensures StrictlyIncreasing(ds)
    decreases hi - lo
  {
    if hi < lo then []
    else
      var earlier := RecurringDates(r, due, lo, hi - 1);
      assert forall i :: 0 <= i < |earlier| ==> earlier[i] in earlier;
      earlier + (if RecurringDay(r, due, hi) then [hi] else [])
  }

  /** Whether chore `c` falls due on day `d`: a non-recurring chore only on its due date. */
  predicate IsDue(c: Chore, d: Day) {
    if c.recurrence.kind == NotRecurring then d == c.dueDate
    else RecurringDay(c.recurrence, c.dueDate, d)
  }

  /** The dates on which `getChoreInstancesForMonth` emits chore `c` for the window [lo, hi]. */
  function ChoreDates(c: Chore, lo: Day, hi: Day): (ds: seq<Day>)
    ensures forall d :: d in ds <==> lo <= d <= hi && IsDue(c, d)
    ensures StrictlyIncreasing(ds)
    ensures c.recurrence.kind == NotRecurring ==> |ds| == (if lo <= c.dueDate <= hi then 1 else 0)
  {
    if c.recurrence.kind == NotRecurring then
      (if lo <= c.dueDate <= hi then [c.dueDate] else [])
    else RecurringDates(c.recurrence, c.dueDate, lo, hi)
  }

  /** The instance for chore `c` on day `d`; it is completed iff `d` is in `completedDates`. */
  function Instance(c: Chore, d: Day): (inst: ChoreInstance)
    ensures inst.chore == c && inst.date == d
    ensures inst.isCompleted <==> d in c.completedDates
  {
    ChoreInstance(c, d, d in c.completedDates)
  }

  function InstancesOf(c: Chore, ds: seq<Day>): (insts: seq<ChoreInstance>)
    ensures |insts| == |ds|
    ensures forall i :: 0 <= i < |ds| ==> insts[i] == Instance(c, ds[i])
  {
    seq(|ds|, i requires 0 <= i < |ds| => Instance(c, ds[i]))
  }

  /** What `getChoreInstancesForMonth` returns: chore by chore in input order, each
      chore's dates ascending. */
  function MonthInstances(chores: seq<Chore>, lo: Day, hi: Day): seq<ChoreInstance>
    decreases |chores|
  {
    if chores == [] then []
    else
      var last := chores[|chores| - 1];
      MonthInstances(chores[..|chores| - 1], lo, hi) + InstancesOf(last, ChoreDates(last, lo, hi))
  }

  /** The inputs on which the daily walk of `generateRecurringDates` is proved to end and
      to equal the reference: a daily chore with a non-empty clipped window steps forward.
      With an interval of 0 the walk never moves; with a negative one it walks backwards
      until the date leaves JavaScript's range, which is not modelled. */
  predicate Expandable(c: Chore, rangeStart: Day, rangeEnd: Day) {
    c.recurrence.kind == Daily
      && EffectiveStart(c.dueDate, rangeStart) <= EffectiveEnd(c.recurrence, rangeEnd)
    ==> c.recurrence.interval >= 1
  }

  // ---------------------------------------------------------------------------
  // Lemmas about the reference definition

  lemma {:induction false} SkipNonDueTail(r: Recurrence, due: Day, lo: Day, mid: Day, hi: Day)
    requires lo - 1 <= mid <= hi
    requires forall d :: mid < d <= hi ==> !RecurringDay(r, due, d)
    ensures RecurringDates(r, due, lo, hi) == RecurringDates(r, due, lo, mid)
    decreases hi - mid
  {
    if hi > mid {
      SkipNonDueTail(r, due, lo, mid, hi - 1);
    }
  }

  lemma {:induction false} SkipNonDueHead(r: Recurrence, due: Day, lo: Day, mid: Day, hi: Day)
    requires lo <= mid <= hi + 1
    requires forall d :: lo <= d < mid ==> !RecurringDay(r, due, d)
    ensures RecurringDates(r, due, lo, hi) == RecurringDates(r, due, mid, hi)
    decreases hi - lo
  {
    if hi < mid {
      SkipNonDueTail(r, due, lo, lo - 1, hi);
    } else {
      SkipNonDueHead(r, due, lo, mid, hi - 1);
    }
  }

  /** Clipping the window to the rule's active interval changes nothing; an empty
      clipped window yields no dates. */
  lemma ClipToEffectiveRange(r: Recurrence, due: Day, lo: Day, hi: Day)
    ensures EffectiveStart(due, lo) <= EffectiveEnd(r, hi) ==>
      RecurringDates(r, due, lo, hi) == RecurringDates(r, due, EffectiveStart(due, lo), EffectiveEnd(r, hi))
    ensures EffectiveStart(due, lo) > EffectiveEnd(r, hi) ==> RecurringDates(r, due, lo, hi) == []
  {
    var s, e := EffectiveStart(due, lo), EffectiveEnd(r, hi);
    var ds := RecurringDates(r, due, lo, hi);
    if s <= e {
      SkipNonDueHead(r, due, lo, s, hi);
      SkipNonDueTail(r, due, s, e, hi);
    } else if lo <= hi {
      SkipNonDueTail(r, due, lo, lo - 1, hi);
    }
  }

  lemma MulMonotone(a: int, b: int, n: int)
    requires a <= b && n >= 0
    ensures a * n <= b * n
  {
  }

  lemma MulSucc(k: int, n: int)
    ensures (k + 1) * n == k * n + n
  {
  }

  /** Under a daily rule, no day strictly between step `x` (the k-th) and the step before it is due. */
  lemma DailyGap(r: Recurrence, due: Day, k: int, x: Day)
    requires r.kind == Daily && r.interval >= 1
    requires x == due + k * r.interval
    ensures forall d :: x - r.interval < d < x ==> !RecurringDay(r, due, d)
  {
    var n := r.interval;
    forall d | x - n < d < x
      ensures !RecurringDay(r, due, d)
    {
      if RecurringDay(r, due, d) {
        var m := (d - due) / n;
        assert d - due == m * n;
        if m >= k {
          MulMonotone(k, m, n);
        } else {
          MulMonotone(m, k - 1, n);
          MulSucc(k - 1, n);
        }
        assert false;
      }
    }
  }

  lemma MultipleIsDivisible(k: int, n: int)
    requires n >= 1
    ensures (k * n) % n == 0
  {
    var q, rem := (k * n) / n, (k * n) % n;
    assert k * n == q * n + rem && 0 <= rem < n;
    assert (k - q) * n == rem;
    if k - q >= 1 {
      MulMonotone(1, k - q, n);
    } else if k - q <= -1 {
      MulMonotone(k - q, -1, n);
    }
  }

  /** Under a daily rule, every step inside the end date is due. */
  lemma DailyStep(r: Recurrence, due: Day, k: nat)
    requires r.kind == Daily && r.interval >= 1
    requires WithinEnd(r, due + k * r.interval)
    ensures RecurringDay(r, due, due + k * r.interval)
  {
    MulMonotone(0, k, r.interval);
    MultipleIsDivisible(k, r.interval);
  }

  // ---------------------------------------------------------------------------
  // generateRecurringDates (recurrence.ts:63-120)

  /** Expands a recurring chore into its dates inside [rangeStart, rangeEnd]. */
  method GenerateRecurringDates(c: Chore, rangeStart: Day, rangeEnd: Day) returns (dates: seq<Day>)
    requires Expandable(c, rangeStart, rangeEnd)
    ensures dates == RecurringDates(c.recurrence, c.dueDate, rangeStart, rangeEnd)
  {
    var rec := c.recurrence;
    var effectiveStart := EffectiveStart(c.dueDate, rangeStart);
    var effectiveEnd := EffectiveEnd(rec, rangeEnd);
    ClipToEffectiveRange(rec, c.dueDate, rangeStart, rangeEnd);
    if effectiveStart > effectiveEnd {
      return [];
    }
    if rec.kind == Daily {
      dates := WalkDaily(rec, c.dueDate, effectiveStart, effectiveEnd);
    } else if rec.kind == Weekly {
      dates := ScanWeekly(rec, c.dueDate, effectiveStart, effectiveEnd);
    } else {
      SkipNonDueTail(rec, c.dueDate, effectiveStart, effectiveStart - 1, effectiveEnd);
      dates := [];
    }
  }

  /** Before the first step inside the window nothing in the window is due. */
  lemma DailyNoneBefore(r: Recurrence, due: Day, lo: Day, k: nat, x: Day)
    requires r.kind == Daily && r.interval >= 1
    requires x == due + k * r.interval && lo <= x && (k == 0 || x - r.interval < lo)
    ensures RecurringDates(r, due, lo, x - 1) == []
  {
    DailyGap(r, due, k, x);
    SkipNonDueTail(r, due, lo, lo - 1, x - 1);
  }

  /** A step inside the window is due, and nothing is due until the next step. */
  lemma DailyAdvance(r: Recurrence, due: Day, lo: Day, k: nat, x: Day)
    requires r.kind == Daily && r.interval >= 1
    requires x == due + k * r.interval && lo <= x && WithinEnd(r, x)
    ensures RecurringDates(r, due, lo, x + r.interval - 1) == RecurringDates(r, due, lo, x - 1) + [x]
  {
    DailyStep(r, due, k);
    MulSucc(k, r.interval);
    DailyGap(r, due, k + 1, x + r.interval);
    SkipNonDueTail(r, due, lo, x, x + r.interval - 1);
  }

  /** Past the last step inside the window nothing more is due. */
  lemma DailyNoneAfter(r: Recurrence, due: Day, lo: Day, hi: Day, k: nat, x: Day)
    requires r.kind == Daily && r.interval >= 1
    requires x == due + k * r.interval && lo <= hi && x - r.interval <= hi < x
    ensures RecurringDates(r, due, lo, x - 1) == RecurringDates(r, due, lo, hi)
  {
    DailyGap(r, due, k, x);
    SkipNonDueTail(r, due, lo, hi, x - 1);
  }

  /** The first loop of the daily branch: step from the anchor by `interval` days until
      the clipped window's first day is reached or passed. */
  method SkipToWindow(n: int, choreStart: Day, effectiveStart: Day) returns (currentDate: Day, ghost k: nat)
    requires n >= 1 && choreStart <= effectiveStart
    ensures currentDate == choreStart + k * n && effectiveStart <= currentDate
    ensures k == 0 || currentDate - n < effectiveStart
    ensures currentDate == choreStart || currentDate - n < effectiveStart
  {
    currentDate := choreStart;
    k := 0;
    while currentDate <= effectiveStart
      invariant currentDate == choreStart + k * n
      invariant k == 0 || currentDate - n < effectiveStart
      invariant currentDate == choreStart || currentDate - n < effectiveStart
      decreases effectiveStart - currentDate
    {
      if currentDate >= effectiveStart {
        break;
      }
      MulSucc(k, n);
      currentDate := currentDate + n;
      k := k + 1;
    }
  }

  /** The daily branch: walk from the anchor in steps of `interval` days up to the
      clipped window [effectiveStart, effectiveEnd], then collect every step inside it. */
  method WalkDaily(rec: Recurrence, choreStart: Day, effectiveStart: Day, effectiveEnd: Day)
    returns (dates: seq<Day>)
    requires rec.kind == Daily && rec.interval >= 1
    requires choreStart <= effectiveStart <= effectiveEnd && WithinEnd(rec, effectiveEnd)
    ensures dates == RecurringDates(rec, choreStart, effectiveStart, effectiveEnd)
  {
    dates := [];
    var n := rec.interval;
    var currentDate: Day;
    ghost var k: nat;
    currentDate, k := SkipToWindow(n, choreStart, effectiveStart);
    DailyNoneBefore(rec, choreStart, effectiveStart, k, currentDate);
    while currentDate <= effectiveEnd
      invariant effectiveStart <= currentDate
      invariant currentDate == choreStart + k * n
      invariant currentDate - n <= effectiveEnd
      invariant dates == RecurringDates(rec, choreStart, effectiveStart, currentDate - 1)
      decreases effectiveEnd - currentDate
    {
      if effectiveStart <= currentDate <= effectiveEnd {
        DailyAdvance(rec, choreStart, effectiveStart, k, currentDate);
        dates := dates + [currentDate];
      }
      MulSucc(k, n);
      currentDate := currentDate + n;
      k := k + 1;
    }
    DailyNoneAfter(rec, choreStart, effectiveStart, effectiveEnd, k, currentDate);
  }

  /** The weekly branch: test every day of the clipped window. */
  method ScanWeekly(rec: Recurrence, choreStart: Day, effectiveStart: Day, effectiveEnd: Day)
    returns (dates: seq<Day>)
    requires rec.kind == Weekly && effectiveStart <= effectiveEnd
    ensures dates == RecurringDates(rec, choreStart, effectiveStart, effectiveEnd)
  {
    dates := [];
    for day := effectiveStart to effectiveEnd + 1
      invariant dates == RecurringDates(rec, choreStart, effectiveStart, day - 1)
    {
      if Weekday(day) in rec.daysOfWeek {
        if day >= choreStart && (rec.endDate.None? || day <= rec.endDate.value) {
          var weeksSinceStart := (day - choreStart) / 7;
          if RemainderIsZero(weeksSinceStart, rec.interval) || rec.interval == 1 {
            dates := dates + [day];
          }
        }
      }
    }
  }

  // ---------------------------------------------------------------------------
  // getChoreInstancesForMonth (recurrence.ts:16-61)

  /** Emits one instance per chore and date inside [monthStart, monthEnd], chore by
      chore; a non-recurring chore is emitted on its due date when that lies in the window. */
  method GetChoreInstancesForMonth(chores: seq<Chore>, monthStart: Day, monthEnd: Day)
    returns (instances: seq<ChoreInstance>)
    requires forall c :: c in chores ==> Expandable(c, monthStart, monthEnd)
    ensures instances == MonthInstances(chores, monthStart, monthEnd)
  {
    instances := [];
    for i := 0 to |chores|
      invariant instances == MonthInstances(chores[..i], monthStart, monthEnd)
    {
      assert chores[..i + 1] == chores[..i] + [chores[i]];
      MonthInstancesSnoc(chores[..i], chores[i], monthStart, monthEnd);
      instances := AddChoreInstances(instances, chores[i], monthStart, monthEnd);
    }
    assert chores[..|chores|] == chores;
  }

  /** One pass of the loop over the chores: push the chore's instances of the month, its
      due date alone for a non-recurring chore, its expanded dates otherwise. */
  method AddChoreInstances(instances: seq<ChoreInstance>, chore: Chore, monthStart: Day, monthEnd: Day)
    returns (result: seq<ChoreInstance>)
    requires Expandable(chore, monthStart, monthEnd)
    ensures result == instances + InstancesOf(chore, ChoreDates(chore, monthStart, monthEnd))
  {
    result := instances;
    if chore.recurrence.kind == NotRecurring {
      if monthStart <= chore.dueDate <= monthEnd {
        result := result + [Instance(chore, chore.dueDate)];
      }
    } else {
      var dates := GenerateRecurringDates(chore, monthStart, monthEnd);
      for j := 0 to |dates|
        invariant result == instances + InstancesOf(chore, dates[..j])
      {
        assert InstancesOf(chore, dates[..j + 1]) == InstancesOf(chore, dates[..j]) + [Instance(chore, dates[j])];
        result := result + [Instance(chore, dates[j])];
      }
      assert dates[..|dates|] == dates;
    }
  }

  /** An instance is emitted iff its chore is one of the input chores, its date lies in
      the window and the chore is due on it; its completion flag is the membership of
      that date in the chore's completedDates. */
  lemma {:induction false} MonthInstancesMembership(chores: seq<Chore>, lo: Day, hi: Day, inst: ChoreInstance)
    ensures inst in MonthInstances(chores, lo, hi) <==>
      && inst.chore in chores
      && lo <= inst.date <= hi && IsDue(inst.chore, inst.date)
      && inst.isCompleted == (inst.date in inst.chore.completedDates)
    decreases |chores|
  {
    if chores != [] {
      var init, last := chores[..|chores| - 1], chores[|chores| - 1];
      assert chores == init + [last];
      MonthInstancesMembership(init, lo, hi, inst);
      var ds := ChoreDates(last, lo, hi);
      var block := InstancesOf(last, ds);
      assert MonthInstances(chores, lo, hi) == MonthInstances(init, lo, hi) + block;
      if inst in block {
        var i :| 0 <= i < |block| && block[i] == inst;
        assert ds[i] in ds;
      }
      if inst.chore == last && inst.date in ds && inst.isCompleted == (inst.date in last.completedDates) {
        var i :| 0 <= i < |ds| && ds[i] == inst.date;
        assert block[i] == inst;
      }
    }
  }

  lemma MonthInstancesSnoc(chores: seq<Chore>, c: Chore, lo: Day, hi: Day)
    ensures MonthInstances(chores + [c], lo, hi)
         == MonthInstances(chores, lo, hi) + InstancesOf(c, ChoreDates(c, lo, hi))
  {
    var s := chores + [c];
    assert s[..|s| - 1] == chores;
  }

  /** Instances are emitted chore by chore, in the order of the input. */
  lemma {:induction false} MonthInstancesAppend(a: seq<Chore>, b: seq<Chore>, lo: Day, hi: Day)
    ensures MonthInstances(a + b, lo, hi) == MonthInstances(a, lo, hi) + MonthInstances(b, lo, hi)
    decreases |b|
  {
    if b == [] {
      assert a + b == a;
    } else {
      var init, last := b[..|b| - 1], b[|b| - 1];
      assert b == init + [last];
      assert a + b == (a + init) + [last];
      MonthInstancesSnoc(a + init, last, lo, hi);
      MonthInstancesAppend(a, init, lo, hi);
      MonthInstancesSnoc(init, last, lo, hi);
      Regroup(MonthInstances(a + b, lo, hi), MonthInstances(a, lo, hi), MonthInstances(init, lo, hi),
              InstancesOf(last, ChoreDates(last, lo, hi)), MonthInstances(b, lo, hi));
    }
  }

  lemma Regroup<T>(whole: seq<T>, x: seq<T>, y: seq<T>, z: seq<T>, tail: seq<T>)
    requires whole == (x + y) + z && tail == y + z
    ensures whole == x + tail
  {
  }

  /** A single chore contributes its dates in ascending order, each once; a
      non-recurring chore contributes exactly one instance iff its due date is in the window. */
  lemma SingleChoreInstances(c: Chore, lo: Day, hi: Day)
    ensures MonthInstances([c], lo, hi) == InstancesOf(c, ChoreDates(c, lo, hi))
    ensures c.recurrence.kind == NotRecurring ==>
      MonthInstances([c], lo, hi) == (if lo <= c.dueDate <= hi then [Instance(c, c.dueDate)] else [])
  {
    assert [c][..0] == [];
  }

  function Step(due: Day, interval: int, k: nat): Day {
    due + k * interval
  }

  /** A daily chore is due exactly on the days `dueDate + k * interval` (k >= 0) of the
      clipped window, however far the window lies after the anchor. */
  lemma DailyDatesAreSteps(c: Chore, lo: Day, hi: Day, d: Day)
    requires c.recurrence.kind == Daily && c.recurrence.interval >= 1
    ensures d in ChoreDates(c, lo, hi) <==>
      && EffectiveStart(c.dueDate, lo) <= d <= EffectiveEnd(c.recurrence, hi)
      && exists k: nat :: d == Step(c.dueDate, c.recurrence.interval, k)
  {
    var r, due, n := c.recurrence, c.dueDate, c.recurrence.interval;
    if d in ChoreDates(c, lo, hi) {
      DueDayIsStep(r, due, d);
    }
    if EffectiveStart(due, lo) <= d <= EffectiveEnd(r, hi) && exists k: nat :: d == Step(due, n, k) {
      var k: nat :| d == Step(due, n, k);
      DailyStep(r, due, k);
    }
  }

  /** Under a daily rule, a due day is a whole number of steps after the anchor. */
  lemma DueDayIsStep(r: Recurrence, due: Day, d: Day)
    requires r.kind == Daily && r.interval >= 1 && RecurringDay(r, due, d)
    ensures (d - due) / r.interval >= 0 && d == Step(due, r.interval, (d - due) / r.interval)
  {
    var n := r.interval;
    var m := (d - due) / n;
    assert d - due == m * n;
    if m < 0 {
      MulMonotone(m, -1, n);
    }
  }

  /** A weekly chore is due on the days of the clipped window whose weekday is selected
      and whose week index since the anchor is a multiple of the interval (any week
      when the interval is 1); no selected weekday means no dates. */
  lemma WeeklyDates(c: Chore, lo: Day, hi: Day, d: Day)
    requires c.recurrence.kind == Weekly
    ensures d in ChoreDates(c, lo, hi) <==>
      && EffectiveStart(c.dueDate, lo) <= d <= EffectiveEnd(c.recurrence, hi)
      && Weekday(d) in c.recurrence.daysOfWeek
      && (c.recurrence.interval == 1 || RemainderIsZero((d - c.dueDate) / 7, c.recurrence.interval))
    ensures c.recurrence.daysOfWeek == [] ==> ChoreDates(c, lo, hi) == []
  {
    if c.recurrence.daysOfWeek == [] && lo <= hi {
      SkipNonDueTail(c.recurrence, c.dueDate, lo, lo - 1, hi);
    }
  }

  // ---------------------------------------------------------------------------
  // Worked examples

  /** From a Monday, the weekdays of the next six days are not Monday. */
  lemma RestOfWeek(monday: Day, d: Day)
    requires Weekday(monday) == 1 && monday < d <= monday + 6
    ensures Weekday(d) != 1
  {
    var q := (monday + 4) / 7;
    assert monday + 4 == 7 * q + 1;
    assert d + 4 == 7 * q + 1 + (d - monday);
  }

  lemma WeekdayPeriodic(d: Day)
    ensures Weekday(d + 7) == Weekday(d)
  {
    var q := (d + 4) / 7;
    assert d + 4 == 7 * q + Weekday(d);
    assert d + 11 == 7 * (q + 1) + Weekday(d);
  }

  /** Inside the 31 days from a Monday, the Mondays are the days at 0, 7, 14, 21 and 28. */
  lemma MondaysWithinMonth(m: Day, d: Day)
    requires Weekday(m) == 1 && m <= d <= m + 30
    ensures Weekday(d) == 1 <==> d in [m, m + 7, m + 14, m + 21, m + 28]
  {
    WeekdayPeriodic(m);
    WeekdayPeriodic(m + 7);
    WeekdayPeriodic(m + 14);
    WeekdayPeriodic(m + 21);
    var monday := if d < m + 7 then m else if d < m + 14 then m + 7
      else if d < m + 21 then m + 14 else if d < m + 28 then m + 21 else m + 28;
    if d != monday {
      RestOfWeek(monday, d);
    }
  }

  /** A Monday-only weekly chore anchored on a Monday, over the 31 days from the anchor
      (January 2024 from Monday 2024-01-01): the five Mondays of the window. */
  lemma MondaysOfMonth(m: Day)
    requires Weekday(m) == 1
    ensures ChoreDates(SampleChore(Recurrence(Weekly, 1, [1], None), m), m, m + 30)
         == [m, m + 7, m + 14, m + 21, m + 28]
  {
    var c := SampleChore(Recurrence(Weekly, 1, [1], None), m);
    var want := [m, m + 7, m + 14, m + 21, m + 28];
    forall d ensures d in ChoreDates(c, m, m + 30) <==> d in want {
      if m <= d <= m + 30 {
        MondaysWithinMonth(m, d);
      }
    }
    SortedUnique(ChoreDates(c, m, m + 30), want);
  }

  /** The same chore repeating every other week: week indexes 0, 2 and 4 only. */
  lemma AlternateMondaysOfMonth(m: Day)
    requires Weekday(m) == 1
    ensures ChoreDates(SampleChore(Recurrence(Weekly, 2, [1], None), m), m, m + 30)
         == [m, m + 14, m + 28]
  {
    var c := SampleChore(Recurrence(Weekly, 2, [1], None), m);
    var want := [m, m + 14, m + 28];
    forall d ensures d in ChoreDates(c, m, m + 30) <==> d in want {
      if m <= d <= m + 30 {
        MondaysWithinMonth(m, d);
        if d == m + 7 {
          assert (d - m) / 7 == 1;
        } else if d == m + 21 {
          assert (d - m) / 7 == 3;
        }
      }
    }
    SortedUnique(ChoreDates(c, m, m + 30), want);
  }

  /** 2024-01-01 (day 19723) is a Monday; in January 2024 a Monday chore falls on the 1st,
      8th, 15th, 22nd and 29th, and every other Monday on the 1st, 15th and 29th. */
  lemma January2024()
    ensures Weekday(19723) == 1
    ensures ChoreDates(SampleChore(Recurrence(Weekly, 1, [1], None), 19723), 19723, 19753)
         == [19723, 19730, 19737, 19744, 19751]
    ensures ChoreDates(SampleChore(Recurrence(Weekly, 2, [1], None), 19723), 19723, 19753)
         == [19723, 19737, 19751]
  {
    MondaysOfMonth(19723);
    AlternateMondaysOfMonth(19723);
  }

  /** Every third day from an anchor a, over a + 9 .. a + 19 (2024-03-10 .. 2024-03-20 for
      an anchor on 2024-03-01): offsets 9, 12, 15 and 18. */
  lemma EveryThirdDayWindow(a: Day)
    ensures ChoreDates(SampleChore(Recurrence(Daily, 3, [], None), a), a + 9, a + 19)
         == [a + 9, a + 12, a + 15, a + 18]
  {
    var r := Recurrence(Daily, 3, [], None);
    var lo := a + 9;
    DailyNoneBefore(r, a, lo, 3, lo);
    DailyAdvance(r, a, lo, 3, lo);
    assert RecurringDates(r, a, lo, a + 11) == [lo];
    DailyAdvance(r, a, lo, 4, a + 12);
    assert RecurringDates(r, a, lo, a + 14) == [lo, a + 12];
    DailyAdvance(r, a, lo, 5, a + 15);
    assert RecurringDates(r, a, lo, a + 17) == [lo, a + 12, a + 15];
    DailyAdvance(r, a, lo, 6, a + 18);
    assert RecurringDates(r, a, lo, a + 20) == [lo, a + 12, a + 15, a + 18];
    DailyNoneAfter(r, a, lo, a + 19, 7, a + 21);
  }

  /** 2024-03-01 is day 19783: every third day from it falls on 2024-03-10, 13, 16 and 19
      inside 2024-03-10 .. 2024-03-20. */
  lemma March2024()
    ensures ChoreDates(SampleChore(Recurrence(Daily, 3, [], None), 19783), 19792, 19802)
         == [19792, 19795, 19798, 19801]
  {
    EveryThirdDayWindow(19783);
  }

  // ---------------------------------------------------------------------------
  // getNextOccurrence (recurrence.ts:122-157)

  /** The search looks at most this many days ahead. */
  const SearchHorizon: nat := 365

  /** The day test of the search: daily chores as in the expansion, but weekly chores
      only by weekday, whatever the interval. */
  predicate SearchHit(c: Chore, d: Day) {
    match c.recurrence.kind
    case NotRecurring => false
    case Daily => RemainderIsZero(d - c.dueDate, c.recurrence.interval)
    case Weekly => Weekday(d) in c.recurrence.daysOfWeek
  }

  /** `next` is the first day of (start, start + SearchHorizon] that passes the day test
      before the end date is passed; None when there is no such day. */
  predicate FirstHit(c: Chore, start: Day, next: Option<Day>) {
    match next
    case Some(d) =>
      && start < d <= start + SearchHorizon
      && WithinEnd(c.recurrence, d) && SearchHit(c, d)
      && forall x :: start < x < d ==> !SearchHit(c, x)
    case None =>
      forall x :: start < x <= start + SearchHorizon && WithinEnd(c.recurrence, x) ==> !SearchHit(c, x)
  }

  /** The later of the reference day and the anchor: the day after it is the first one tested. */
  function SearchStart(c: Chore, afterDate: Day): (s: Day)
    ensures s >= afterDate && s >= c.dueDate && (s == afterDate || s == c.dueDate)
  {
    if afterDate > c.dueDate then afterDate else c.dueDate
  }

  predicate IsNextOccurrence(c: Chore, afterDate: Day, next: Option<Day>) {
    if c.recurrence.kind == NotRecurring then
      next == (if c.dueDate > afterDate then Some(c.dueDate) else None)
    else FirstHit(c, SearchStart(c, afterDate), next)
  }

  /** The day-by-day loop of the search, from the day after `start`. */
  method ScanForward(c: Chore, start: Day) returns (next: Option<Day>)
    ensures FirstHit(c, start, next)
  {
    var rec := c.recurrence;
    var currentDate := start;
    for i := 0 to SearchHorizon
      invariant currentDate == start + i
      invariant forall x :: start < x <= currentDate ==> WithinEnd(rec, x) && !SearchHit(c, x)
    {
      currentDate := currentDate + 1;
      if rec.endDate.Some? && currentDate > rec.endDate.value {
        return None;
      }
      if rec.kind == Daily {
        var daysSinceStart := currentDate - c.dueDate;
        if RemainderIsZero(daysSinceStart, rec.interval) {
          return Some(currentDate);
        }
      } else if rec.kind == Weekly {
        if Weekday(currentDate) in rec.daysOfWeek {
          return Some(currentDate);
        }
      }
    }
    return None;
  }

  /** The next occurrence of `c` after `afterDate`, as the program computes it. */
  method GetNextOccurrence(c: Chore, afterDate: Day) returns (next: Option<Day>)
    ensures IsNextOccurrence(c, afterDate, next)
    ensures next.Some? ==> next.value > afterDate && next.value >= c.dueDate
    ensures next.Some? && c.recurrence.kind != NotRecurring ==> next.value > c.dueDate
  {
    if c.recurrence.kind == NotRecurring {
      return if c.dueDate > afterDate then Some(c.dueDate) else None;
    }
    next := ScanForward(c, SearchStart(c, afterDate));
  }

  /** The search result is determined by its specification. */
  lemma NextOccurrenceUnique(c: Chore, afterDate: Day, r1: Option<Day>, r2: Option<Day>)
    requires IsNextOccurrence(c, afterDate, r1) && IsNextOccurrence(c, afterDate, r2)
    ensures r1 == r2
  {
  }

  /** A recurring chore anchored after the reference day never reports its first
      occurrence: the scan starts on the day after the anchor. */
  lemma NextOccurrenceSkipsDueDate()
    ensures var c := SampleChore(Recurrence(Daily, 1, [], None), 10);
      && IsNextOccurrence(c, 5, Some(11))
      && 5 < 10 && IsDue(c, 10)
      && IsCorrectedNextOccurrence(c, 5, Some(10))
  {
    var c := SampleChore(Recurrence(Daily, 1, [], None), 10);
    assert SearchStart(c, 5) == 10;
    assert SearchHit(c, 11);
  }

  /** Weekly search accepts every selected weekday, so with an interval above one it
      can report a day on which the chore is not due. */
  lemma WeeklySearchIgnoresInterval()
    ensures var c := SampleChore(Recurrence(Weekly, 2, [1], None), 19723);
      && IsNextOccurrence(c, 19729, Some(19730))
      && !IsDue(c, 19730)
  {
    var c := SampleChore(Recurrence(Weekly, 2, [1], None), 19723);
    assert Weekday(19730) == 1;
    assert SearchHit(c, 19730);
  }

  /** A chore with the given recurrence anchored at `due`; the other fields do not
      influence the recurrence engine. */
  function SampleChore(r: Recurrence, due: Day): (c: Chore)
    ensures c.recurrence == r && c.dueDate == due && c.completedDates == []
  {
    Chore("", "", "", None, Other, Medium, due, r, [], "")
  }

  // ---------------------------------------------------------------------------
  // The next occurrence with the anchor included

  /** The day before the first day to test: the reference day, or the day before the
      anchor when the reference day precedes it. */
  function CorrectedSearchStart(c: Chore, afterDate: Day): (s: Day)
    ensures s >= afterDate && s >= c.dueDate - 1
    ensures afterDate >= c.dueDate ==> s == afterDate == SearchStart(c, afterDate)
    ensures afterDate < c.dueDate ==> s + 1 == c.dueDate
  {
    if afterDate >= c.dueDate then afterDate else c.dueDate - 1
  }

  predicate IsCorrectedNextOccurrence(c: Chore, afterDate: Day, next: Option<Day>) {
    if c.recurrence.kind == NotRecurring then
      next == (if c.dueDate > afterDate then Some(c.dueDate) else None)
    else FirstHit(c, CorrectedSearchStart(c, afterDate), next)
  }

  /** The search with the anchor among the tested days; the day test is unchanged. */
  method GetNextOccurrenceFromDueDate(c: Chore, afterDate: Day) returns (next: Option<Day>)
    ensures IsCorrectedNextOccurrence(c, afterDate, next)
    ensures next.Some? ==> next.value > afterDate && next.value >= c.dueDate
  {
    if c.recurrence.kind == NotRecurring {
      return if c.dueDate > afterDate then Some(c.dueDate) else None;
    }
    next := ScanForward(c, CorrectedSearchStart(c, afterDate));
  }

  /** The search day test agrees with the expansion on days from the anchor on: for
      daily chores, and for weekly chores repeating every week. */
  predicate SearchAgrees(c: Chore) {
    || c.recurrence.kind == NotRecurring
    || (c.recurrence.kind == Daily && c.recurrence.interval >= 1)
    || (c.recurrence.kind == Weekly && c.recurrence.interval == 1)
  }

  /** Where the day test agrees with the expansion, a reported day is the earliest day
      after the reference day on which the chore is due: the first date the calendar
      shows from the day after the reference day on. */
  lemma NextOccurrenceIsEarliest(c: Chore, afterDate: Day, d: Day)
    requires SearchAgrees(c)
    requires IsCorrectedNextOccurrence(c, afterDate, Some(d))
    ensures d > afterDate && IsDue(c, d)
    ensures forall x :: afterDate < x < d ==> !IsDue(c, x)
    ensures ChoreDates(c, afterDate + 1, d) == [d]
  {
    var start := CorrectedSearchStart(c, afterDate);
    forall x | afterDate < x < d ensures !IsDue(c, x) {
      if x > start {
        assert !SearchHit(c, x);
      }
    }
    var ds := ChoreDates(c, afterDate + 1, d);
    forall x | x in ds ensures x == d {
      assert afterDate < x <= d && IsDue(c, x);
    }
    assert d in ds;
    SortedUnique(ds, [d]);
  }

  /** For every chore, no report means the chore is not due on any day after the
      reference day up to a year past the later of the reference day and the anchor. */
  lemma NoNextOccurrenceMeansNoneDue(c: Chore, afterDate: Day)
    requires IsCorrectedNextOccurrence(c, afterDate, None)
    ensures forall x :: afterDate < x <= CorrectedSearchStart(c, afterDate) + SearchHorizon ==> !IsDue(c, x)
  {
  }
}
