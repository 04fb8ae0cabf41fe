/**
 * The Jakarta Bean Validation constraints the entities and requests declare
 * (`@NotNull`, `@Size`, `@FutureOrPresent`) and the field errors they report.
 */
module Validation {
  import opened Wrappers
  import opened Text
  import opened Dates

  /** One constraint violation as Spring's binding result reports it. */
  datatype FieldError = FieldError(field: string, message: string)

  /**
   * The default `@NotNull` message of Hibernate Validator in the Polish locale
   * the repository's tests run in.
   */
  const NotNullMessage: string := "nie może mieć wartości null"

  /** `@NotNull`: a violation exactly when the value is null. */
  function NotNullCheck<T>(field: string, v: Option<T>): (r: seq<FieldError>)
    ensures r == [] <==> v.Some?
    ensures r != [] ==> r == [FieldError(field, NotNullMessage)]
  {
    if v.None? then [FieldError(field, NotNullMessage)] else []
  }

  /** `@Size(min, max)` holds of null and of a string whose Java length is within the bounds. */
  predicate SizeWithin(v: Option<string>, min: int, max: int) {
    v.None? || min <= Utf16Length(v.value) <= max
  }

  function SizeCheck(field: string, v: Option<string>, min: int, max: int, message: string): (r: seq<FieldError>)
    ensures r == [] <==> SizeWithin(v, min, max)
    ensures r != [] ==> r == [FieldError(field, message)]
  {
    if SizeWithin(v, min, max) then [] else [FieldError(field, message)]
  }

  /** `@FutureOrPresent` holds of null and of a date that is not before today. */
  predicate FutureOrPresent(v: Option<Date>, today: Date) {
    v.None? || OnOrAfter(v.value, today)
  }

  function FutureOrPresentCheck(field: string, v: Option<Date>, today: Date, message: string): (r: seq<FieldError>)
    ensures r == [] <==> FutureOrPresent(v, today)
    ensures r != [] ==> r == [FieldError(field, message)]
  {
    if FutureOrPresent(v, today) then [] else [FieldError(field, message)]
  }

  /** Today is accepted and yesterday (any earlier date) is rejected. */
  lemma FutureOrPresentBoundary(d: Date, today: Date)
    ensures FutureOrPresent(Some(today), today)
    ensures IsBefore(d, today) ==> !FutureOrPresent(Some(d), today)
    ensures d == today || IsBefore(today, d) ==> FutureOrPresent(Some(d), today)
  {
    IsBeforeStrictTotal(d, today, d);
  }

  // The messages the task and project constraints declare.
  const TaskNameMessage: string := "Name must be between 3 and 100 characters"
  const ProjectNameMessage: string := "Project name must be between 3 and 100 characters"
  const DescriptionMessage: string := "Description cannot exceed 500 characters"
  const DueDateMessage: string := "Due date must be in the future or present"
}
