/** The list handlers and view filters of the application shell (chore-app/src/App.tsx).
    Each handler replaces the chore list or the member list by a new value computed
    from the old one; the new values are the functions below, and `ChoreBoard` holds
    the two lists and applies them. */
module App {
  import opened Types
  import opened Seqs
  import opened RecurrenceEngine

  // ---------------------------------------------------------------------------
  // The new list values computed by the handlers

  /** `handleUpdateChore`: every chore carrying the edited chore's id is replaced by it. */
  function WithUpdated(chores: seq<Chore>, updated: Chore): (r: seq<Chore>)
    ensures |r| == |chores|
    ensures forall i :: 0 <= i < |r| ==> r[i].id == chores[i].id
    ensures forall i :: 0 <= i < |r| && chores[i].id == updated.id ==> r[i] == updated
    ensures forall i :: 0 <= i < |r| && chores[i].id != updated.id ==> r[i] == chores[i]
  {
    Map((c: Chore) => if c.id == updated.id then updated else c, chores)
  }

  /** `handleDeleteChore`: the chores whose id differs, in their original order. */
  function WithoutChore(chores: seq<Chore>, id: ChoreId): (r: seq<Chore>)
    ensures forall c :: c in r <==> c in chores && c.id != id
    ensures |r| <= |chores|
  {
    Filter((c: Chore) => c.id != id, chores)
  }

  /** The chore with the completion of `date` flipped and every other field kept. */
  function ToggledCompletion(c: Chore, date: Day): (t: Chore)
    ensures t.(completedDates := c.completedDates) == c
    ensures date in t.completedDates <==> date !in c.completedDates
    ensures forall d :: d != date ==> (d in t.completedDates <==> d in c.completedDates)
    ensures date !in c.completedDates ==> t.completedDates == c.completedDates + [date]
  {
    c.(completedDates := Toggle(c.completedDates, date))
  }

  /** `handleToggleComplete`: the chores carrying `id` get the completion of `date`
      flipped; every other chore is kept as it is. */
  function WithToggled(chores: seq<Chore>, id: ChoreId, date: Day): (r: seq<Chore>)
    ensures |r| == |chores|
    ensures forall i :: 0 <= i < |r| && chores[i].id != id ==> r[i] == chores[i]
    ensures forall i :: 0 <= i < |r| && chores[i].id == id ==> r[i] == ToggledCompletion(chores[i], date)
  {
    Map((c: Chore) => if c.id != id then c else ToggledCompletion(c, date), chores)
  }

  /** The member list of `handleRemoveTeamMember`: the members whose id differs. */
  function WithoutMember(members: seq<TeamMember>, id: MemberId): (r: seq<TeamMember>)
    ensures forall m :: m in r <==> m in members && m.id != id
  {
    Filter((m: TeamMember) => m.id != id, members)
  }

  /** The chore list of `handleRemoveTeamMember`: chores assigned to the removed member
      become unassigned; all other chores and fields are kept. */
  function Unassigned(chores: seq<Chore>, id: MemberId): (r: seq<Chore>)
    ensures |r| == |chores|
    ensures forall i :: 0 <= i < |r| && chores[i].assigneeId == Some(id) ==>
      r[i] == chores[i].(assigneeId := None)
    ensures forall i :: 0 <= i < |r| && chores[i].assigneeId != Some(id) ==> r[i] == chores[i]
  {
    Map((c: Chore) => if c.assigneeId == Some(id) then c.(assigneeId := None) else c, chores)
  }

  // ---------------------------------------------------------------------------
  // How the handlers combine

  /** Deleting a chore just added, under an id no other chore carries, gives back the
      list as it was. */
  lemma AddThenDelete(chores: seq<Chore>, c: Chore)
    requires forall x :: x in chores ==> x.id != c.id
    ensures WithoutChore(chores + [c], c.id) == chores
  {
    var p := (x: Chore) => x.id != c.id;
    FilterAppend(p, chores, [c]);
    FilterKeepsAll(p, chores);
    assert Filter(p, [c]) == [];
  }

  /** Saving the same edit twice is the same as saving it once. */
  lemma UpdateIdempotent(chores: seq<Chore>, updated: Chore)
    ensures WithUpdated(WithUpdated(chores, updated), updated) == WithUpdated(chores, updated)
  {
  }

  /** An edit followed by deleting the edited chore leaves what deleting alone leaves. */
  lemma UpdateThenDelete(chores: seq<Chore>, updated: Chore)
    ensures WithoutChore(WithUpdated(chores, updated), updated.id) == WithoutChore(chores, updated.id)
  {
    FilterAfterMap((c: Chore) => c.id != updated.id,
                   (c: Chore) => if c.id == updated.id then updated else c, chores);
  }

  /** Toggling the same day of the same chore twice keeps every field but the completion
      list, restores the completion of every day, and restores the chore outright when
      the day was not completed before. */
  lemma ToggleCompleteTwice(chores: seq<Chore>, id: ChoreId, date: Day)
    ensures var r := WithToggled(WithToggled(chores, id, date), id, date);
      && |r| == |chores|
      && (forall i :: 0 <= i < |r| ==> r[i].(completedDates := chores[i].completedDates) == chores[i])
      && (forall i, d :: 0 <= i < |r| ==> (d in r[i].completedDates <==> d in chores[i].completedDates))
      && (forall i :: 0 <= i < |r| && date !in chores[i].completedDates ==> r[i] == chores[i])
  {
    var once := WithToggled(chores, id, date);
    var r := WithToggled(once, id, date);
    forall i | 0 <= i < |r| && chores[i].id == id
      ensures r[i].completedDates == Toggle(Toggle(chores[i].completedDates, date), date)
    {
    }
    forall i | 0 <= i < |r| && chores[i].id == id
      ensures forall d :: d in r[i].completedDates <==> d in chores[i].completedDates
      ensures date !in chores[i].completedDates ==> r[i] == chores[i]
    {
      ToggleTwice(chores[i].completedDates, date);
    }
  }

  /** Every assigned chore names a member of the team. */
  ghost predicate AssigneesKnown(chores: seq<Chore>, members: seq<TeamMember>) {
    forall c :: c in chores && c.assigneeId.Some? ==>
      exists m :: m in members && m.id == c.assigneeId.value
  }

  /** Removing a member together with its assignments keeps every assignee known. */
  lemma RemoveMemberKeepsAssigneesKnown(chores: seq<Chore>, members: seq<TeamMember>, id: MemberId)
    requires AssigneesKnown(chores, members)
    ensures AssigneesKnown(Unassigned(chores, id), WithoutMember(members, id))
  {
    var r, ms := Unassigned(chores, id), WithoutMember(members, id);
    forall c | c in r && c.assigneeId.Some?
      ensures exists m :: m in ms && m.id == c.assigneeId.value
    {
      var i :| 0 <= i < |r| && r[i] == c;
      assert c == chores[i] && chores[i] in chores;
      var m :| m in members && m.id == c.assigneeId.value;
      assert m in ms;
    }
  }

  /** Deleting a chore keeps every assignee known. */
  lemma DeleteKeepsAssigneesKnown(chores: seq<Chore>, members: seq<TeamMember>, id: ChoreId)
    requires AssigneesKnown(chores, members)
    ensures AssigneesKnown(WithoutChore(chores, id), members)
  {
  }

  /** Adding or saving a chore whose assignee is a member keeps every assignee known. */
  lemma SaveKeepsAssigneesKnown(chores: seq<Chore>, members: seq<TeamMember>, c: Chore)
    requires AssigneesKnown(chores, members)
    requires c.assigneeId.Some? ==> exists m :: m in members && m.id == c.assigneeId.value
    ensures AssigneesKnown(chores + [c], members)
    ensures AssigneesKnown(WithUpdated(chores, c), members)
  {
    var r := WithUpdated(chores, c);
    forall x | x in r && x.assigneeId.Some?
      ensures exists m :: m in members && m.id == x.assigneeId.value
    {
      var i :| 0 <= i < |r| && r[i] == x;
      if chores[i].id != c.id {
        assert chores[i] in chores;
      }
    }
  }

  // ---------------------------------------------------------------------------
  // The view filters

  /** A filter criterion: `'all'`, or one value to match. */
  datatype Choice<T> = All | Only(value: T)

  datatype Filters = Filters(category: Choice<Category>, priority: Choice<Priority>, assigneeId: Choice<MemberId>)

  const NoFilters := Filters(All, All, All)

  predicate Accepts<T(==)>(f: Choice<T>, v: T) {
    f.All? || f.value == v
  }

  /** The filter callback: an instance is rejected as soon as one set criterion differs
      from its chore; an unassigned chore never matches a set assignee criterion. */
  predicate Passes(f: Filters, inst: ChoreInstance): (b: bool)
    ensures b <==>
      && Accepts(f.category, inst.chore.category)
      && Accepts(f.priority, inst.chore.priority)
      && (f.assigneeId.All? || inst.chore.assigneeId == Some(f.assigneeId.value))
  {
    if f.category.Only? && inst.chore.category != f.category.value then false
    else if f.priority.Only? && inst.chore.priority != f.priority.value then false
    else if f.assigneeId.Only? && inst.chore.assigneeId != Some(f.assigneeId.value) then false
    else true
  }

  /** `filteredInstances`: the instances that pass, in their original order. */
  function FilteredInstances(f: Filters, insts: seq<ChoreInstance>): (r: seq<ChoreInstance>)
    ensures forall i :: i in r <==> i in insts && Passes(f, i)
  {
    Filter((i: ChoreInstance) => Passes(f, i), insts)
  }

  /** The list shown for the selected day: the filtered instances dated that day. */
  function DayInstances(f: Filters, insts: seq<ChoreInstance>, day: Day): (r: seq<ChoreInstance>)
    ensures forall i :: i in r <==> i in insts && Passes(f, i) && i.date == day
  {
    Filter((i: ChoreInstance) => i.date == day, FilteredInstances(f, insts))
  }

  /** With every criterion at `'all'`, filtering changes nothing. */
  lemma NoFiltersIsIdentity(insts: seq<ChoreInstance>)
    ensures FilteredInstances(NoFilters, insts) == insts
  {
    FilterKeepsAll((i: ChoreInstance) => Passes(NoFilters, i), insts);
  }

  /** Filtering keeps the relative order: filtering a concatenation concatenates the
      filtered parts. */
  lemma FilterKeepsOrder(f: Filters, a: seq<ChoreInstance>, b: seq<ChoreInstance>)
    ensures FilteredInstances(f, a + b) == FilteredInstances(f, a) + FilteredInstances(f, b)
  {
    FilterAppend((i: ChoreInstance) => Passes(f, i), a, b);
  }

  /** What the day list of the month view holds: an instance of a stored chore, dated the
      selected day inside the month, on which the chore is due, marked completed exactly
      when that day is in its completion list, and passing the filters. */
  lemma DayListMembership(chores: seq<Chore>, lo: Day, hi: Day, f: Filters, day: Day, inst: ChoreInstance)
    ensures inst in DayInstances(f, MonthInstances(chores, lo, hi), day) <==>
      && inst.chore in chores
      && inst.date == day && lo <= day <= hi
      && IsDue(inst.chore, day)
      && (inst.isCompleted <==> day in inst.chore.completedDates)
      && Passes(f, inst)
  {
    MonthInstancesMembership(chores, lo, hi, inst);
  }

  // ---------------------------------------------------------------------------
  // The stored lists and their handlers

  /** The two lists the application keeps in local storage. */
  class ChoreBoard {
    var chores: seq<Chore>
    var teamMembers: seq<TeamMember>

    constructor(initialChores: seq<Chore>, initialMembers: seq<TeamMember>)
      ensures chores == initialChores && teamMembers == initialMembers
    {
      chores := initialChores;
      teamMembers := initialMembers;
    }

    /** `handleAddChore`: the chore goes at the end. */
    method AddChore(c: Chore)
      modifies this
      ensures chores == old(chores) + [c]
      ensures teamMembers == old(teamMembers)
    {
      chores := chores + [c];
    }

    method UpdateChore(updated: Chore)
      modifies this
      ensures chores == WithUpdated(old(chores), updated)
      ensures teamMembers == old(teamMembers)
    {
      chores := WithUpdated(chores, updated);
    }

    method DeleteChore(id: ChoreId)
      modifies this
      ensures chores == WithoutChore(old(chores), id)
      ensures teamMembers == old(teamMembers)
    {
      chores := WithoutChore(chores, id);
    }

    method ToggleComplete(id: ChoreId, date: Day)
      modifies this
      ensures chores == WithToggled(old(chores), id, date)
      ensures teamMembers == old(teamMembers)
    {
      chores := WithToggled(chores, id, date);
    }

    /** `handleAddTeamMember`: the member goes at the end. */
    method AddTeamMember(m: TeamMember)
      modifies this
      ensures teamMembers == old(teamMembers) + [m]
      ensures chores == old(chores)
    {
      teamMembers := teamMembers + [m];
    }

    /** `handleRemoveTeamMember` updates both lists. */
    method RemoveTeamMember(id: MemberId)
      modifies this
      ensures teamMembers == WithoutMember(old(teamMembers), id)
      ensures chores == Unassigned(old(chores), id)
    {
      teamMembers := WithoutMember(teamMembers, id);
      chores := Unassigned(chores, id);
    }

    /** The instances the calendar shows for the month [monthStart, monthEnd]. */
    method CalendarInstances(monthStart: Day, monthEnd: Day, f: Filters) returns (insts: seq<ChoreInstance>)
      requires forall c :: c in chores ==> Expandable(c, monthStart, monthEnd)
      ensures insts == FilteredInstances(f, MonthInstances(chores, monthStart, monthEnd))
    {
      insts := GetChoreInstancesForMonth(chores, monthStart, monthEnd);
      insts := FilteredInstances(f, insts);
    }
  }
}
