/**
 * `TaskSpecification`: the predicates a task search is built from. Each
 * compares one column with the argument the way the generated SQL does; a
 * comparison with a NULL column is never true, so an absent field matches none
 * of them.
 */
module TaskSpecification {
  import opened Wrappers
  import opened Text
  import opened Dates
  import opened Model

  /** `hasStatus`: `status = ?`. */
  predicate HasStatus(status: Status, t: Task) { t.status == Some(status) }

  /** `hasPriority`: `priority = ?`. */
  predicate HasPriority(priority: Priority, t: Task) { t.priority == Some(priority) }

  /**
   * `belongsToProject`: the id of the project reached by a LEFT join equals the
   * argument; an unassigned task joins no row and never matches.
   */
  predicate BelongsToProject(projectId: int, t: Task) { t.project == Some(projectId) }

  /** `dueDateAfterOrEqual`: `due_date >= ?`. */
  predicate DueDateAfterOrEqual(date: Date, t: Task) {
    t.dueDate.Some? && !IsBefore(t.dueDate.value, date)
  }

  /** `dueDateBeforeOrEqual`: `due_date <= ?`. */
  predicate DueDateBeforeOrEqual(date: Date, t: Task) {
    t.dueDate.Some? && !IsBefore(date, t.dueDate.value)
  }

  /** `nameContains`: `lower(name) LIKE '%' || lower(keyword) || '%'`. */
  predicate NameContains(keyword: string, t: Task) {
    t.name.Some? && Contains(ToLower(t.name.value), ToLower(keyword))
  }

  /** `descriptionContains`: the same test on the description. */
  predicate DescriptionContains(keyword: string, t: Task) {
    t.description.Some? && Contains(ToLower(t.description.value), ToLower(keyword))
  }

  /** `hasId`: `id = ?`. */
  predicate HasId(id: int, t: Task) { t.id == Some(id) }

  /** The two containment tests hold exactly when the lowered keyword occurs in the lowered text. */
  lemma ContainsIffOccurs(keyword: string, t: Task)
    ensures NameContains(keyword, t)
      <==> t.name.Some? && exists i :: OccursAt(ToLower(t.name.value), ToLower(keyword), i)
    ensures DescriptionContains(keyword, t)
      <==> t.description.Some? && exists i :: OccursAt(ToLower(t.description.value), ToLower(keyword), i)
  {
    if t.name.Some? {
      ContainsIff(ToLower(t.name.value), ToLower(keyword));
    }
    if t.description.Some? {
      ContainsIff(ToLower(t.description.value), ToLower(keyword));
    }
  }

  /** The keyword is lowercased, so the case it is typed in does not matter. */
  lemma ContainsIgnoresCase(keyword: string, t: Task)
    ensures NameContains(ToUpper(keyword), t) <==> NameContains(keyword, t)
    ensures NameContains(ToLower(keyword), t) <==> NameContains(keyword, t)
    ensures DescriptionContains(ToUpper(keyword), t) <==> DescriptionContains(keyword, t)
    ensures DescriptionContains(ToLower(keyword), t) <==> DescriptionContains(keyword, t)
  {
    LowerOfCaseMapped(keyword);
  }

  /** A keyword that is literally part of the name matches. */
  lemma NameContainsSubstring(keyword: string, t: Task, i: int)
    requires t.name.Some? && OccursAt(t.name.value, keyword, i)
    ensures NameContains(keyword, t)
  {
    var n := t.name.value;
    assert ToLower(n)[i..i + |keyword|] == ToLower(n[i..i + |keyword|]);
    assert OccursAt(ToLower(n), ToLower(keyword), i);
    ContainsIff(ToLower(n), ToLower(keyword));
  }

  /** An absent due date or description matches neither date bound nor the description test. */
  lemma NullColumnsNeverMatch(date: Date, keyword: string, t: Task)
    ensures t.dueDate.None? ==> !DueDateAfterOrEqual(date, t) && !DueDateBeforeOrEqual(date, t)
    ensures t.description.None? ==> !DescriptionContains(keyword, t)
    ensures t.project.None? ==> forall p :: !BelongsToProject(p, t)
  {
  }

  /** Both bounds are inclusive, and a range whose start is after its end holds no date. */
  lemma DateBounds(from: Date, to: Date, t: Task)
    ensures t.dueDate == Some(from) ==> DueDateAfterOrEqual(from, t) && DueDateBeforeOrEqual(from, t)
    ensures IsBefore(to, from) ==> !(DueDateAfterOrEqual(from, t) && DueDateBeforeOrEqual(to, t))
  {
    if t.dueDate.Some? {
      IsBeforeStrictTotal(t.dueDate.value, from, to);
      IsBeforeStrictTotal(to, from, t.dueDate.value);
      IsBeforeStrictTotal(to, t.dueDate.value, from);
    }
  }
}
