/**
 * The Spring Data paging the searches use: `Sort`, `PageRequest`, `Page`, and
 * `findAll(spec, pageable)` as a collaborator that filters the table's rows
 * (already in the order the storage engine returns for the requested sort)
 * and returns one slice of them.
 */
module Paging {
  import opened Wrappers
  import opened Text

  datatype Direction = Asc | Desc
  datatype Sort = Sort(direction: Direction, property: string)

  /** `PageRequest`: a zero-based page index, a page size and a sort. */
  datatype PageRequest = PageRequest(page: int, size: int, sort: Sort)

  /** `Page`: one slice of the matching rows and the number of all matching rows. */
  datatype Page<T> = Page(content: seq<T>, number: int, size: int, totalElements: nat)

  /** `Character.isWhitespace`: the Unicode space separators except the no-break ones, and the ASCII controls. */
  predicate IsJavaWhitespace(c: char) {
    || ('\t' <= c <= '\r')
    || ('\U{1C}' <= c <= '\U{1F}')
    || c == ' ' || c == '\U{1680}'
    || ('\U{2000}' <= c <= '\U{2006}') || ('\U{2008}' <= c <= '\U{200A}')
    || c == '\U{2028}' || c == '\U{2029}' || c == '\U{205F}' || c == '\U{3000}'
  }

  /** `StringUtils.hasText`: some char of the string is not whitespace. */
  predicate HasText(s: string) {
    exists i :: 0 <= i < |s| && !IsJavaWhitespace(s[i])
  }

  /** `Sort.by(direction, property)`: the property must have text. */
  function SortBy(direction: Direction, property: string): (r: Result<Sort, string>)
    ensures r.Success? <==> HasText(property)
    ensures r.Success? ==> r.value == Sort(direction, property)
    ensures r.Failure? ==> r.error == "Property must not be null or empty"
  {
    if HasText(property) then Success(Sort(direction, property))
    else Failure("Property must not be null or empty")
  }

  /** `PageRequest.of(page, size, sort)`: the page index is checked first, then the size. */
  function PageRequestOf(page: int, size: int, sort: Sort): (r: Result<PageRequest, string>)
    ensures r.Success? <==> page >= 0 && size >= 1
    ensures r.Success? ==> r.value == PageRequest(page, size, sort)
    ensures page < 0 ==> r == Failure("Page index must not be less than zero")
    ensures page >= 0 && size < 1 ==> r == Failure("Page size must not be less than one")
  {
    if page < 0 then Failure("Page index must not be less than zero")
    else if size < 1 then Failure("Page size must not be less than one")
    else Success(PageRequest(page, size, sort))
  }

  /** The rows a predicate accepts, in their original order. */
  function Filter<T(!new)>(rows: seq<T>, p: T -> bool): (r: seq<T>)
    ensures |r| <= |rows|
    ensures forall x :: x in r <==> x in rows && p(x)
  {
    if rows == [] then [] else (if p(rows[0]) then [rows[0]] else []) + Filter(rows[1..], p)
  }

  /** When every row passes, filtering keeps the table as it is. */
  lemma {:induction false} FilterAllPass<T(!new)>(rows: seq<T>, p: T -> bool)
    requires forall x :: x in rows ==> p(x)
    ensures Filter(rows, p) == rows
  {
    if rows != [] {
      FilterAllPass(rows[1..], p);
    }
  }

  /** Predicates that agree on every row filter alike. */
  lemma {:induction false} FilterSame<T(!new)>(rows: seq<T>, p: T -> bool, q: T -> bool)
    requires forall x :: p(x) == q(x)
    ensures Filter(rows, p) == Filter(rows, q)
  {
    if rows != [] {
      FilterSame(rows[1..], p, q);
    }
  }

  /** `getTotalPages()`: the number of pages of this size the matching rows fill. */
  function TotalPages<T>(pg: Page<T>): int
    requires pg.size >= 1
  {
    (pg.totalElements + pg.size - 1) / pg.size
  }

  /**
   * `findAll(spec, pageable)`: of the matching rows, the ones from index
   * `page * size` on, at most `size` of them.
   */
  function FindAll<T(!new)>(rows: seq<T>, spec: T -> bool, pr: PageRequest): (pg: Page<T>)
    requires pr.page >= 0 && pr.size >= 1
    ensures pg.number == pr.page && pg.size == pr.size
    ensures pg.totalElements == |Filter(rows, spec)|
    ensures |pg.content| <= pr.size
    ensures forall i :: 0 <= i < |pg.content| ==>
      pr.page * pr.size + i < pg.totalElements && pg.content[i] == Filter(rows, spec)[pr.page * pr.size + i]
  {
    var all := Filter(rows, spec);
    var start := pr.page * pr.size;
    var content := if start >= |all| then [] else all[start..if start + pr.size <= |all| then start + pr.size else |all|];
    Page(content, pr.page, pr.size, |all|)
  }

  /** `Page.map(f)`: the content mapped element by element; number, size and total unchanged. */
  function MapPage<A, B>(pg: Page<A>, f: A -> B): (r: Page<B>)
    ensures |r.content| == |pg.content|
    ensures forall i :: 0 <= i < |pg.content| ==> r.content[i] == f(pg.content[i])
    ensures r.number == pg.number && r.size == pg.size && r.totalElements == pg.totalElements
  {
    Page(seq(|pg.content|, i requires 0 <= i < |pg.content| => f(pg.content[i])), pg.number, pg.size, pg.totalElements)
  }

  /** A predicate no row satisfies filters every row out. */
  lemma {:induction false} FilterNone<T(!new)>(rows: seq<T>, spec: T -> bool)
    requires forall x :: x in rows ==> !spec(x)
    ensures Filter(rows, spec) == []
  {
    if rows != [] {
      assert forall x :: x in rows[1..] ==> x in rows;
      FilterNone(rows[1..], spec);
    }
  }

  /** A predicate nothing satisfies gives an empty page with no total, not an error. */
  lemma FindAllNoMatch<T(!new)>(rows: seq<T>, spec: T -> bool, pr: PageRequest)
    requires pr.page >= 0 && pr.size >= 1
    requires forall x :: !spec(x)
    ensures FindAll(rows, spec, pr).content == [] && FindAll(rows, spec, pr).totalElements == 0
  {
    FilterNone(rows, spec);
  }

  /** Every row on a page is a row of the table the predicate accepts. */
  lemma FindAllSound<T(!new)>(rows: seq<T>, spec: T -> bool, pr: PageRequest, x: T)
    requires pr.page >= 0 && pr.size >= 1
    requires x in FindAll(rows, spec, pr).content
    ensures x in rows && spec(x)
  {
    var pg := FindAll(rows, spec, pr);
    var i :| 0 <= i < |pg.content| && pg.content[i] == x;
    assert Filter(rows, spec)[pr.page * pr.size + i] in Filter(rows, spec);
  }

  /** A page is empty exactly when it starts at or after the last matching row. */
  lemma FindAllEmpty<T(!new)>(rows: seq<T>, spec: T -> bool, pr: PageRequest)
    requires pr.page >= 0 && pr.size >= 1
    ensures FindAll(rows, spec, pr).content == [] <==> pr.page * pr.size >= |Filter(rows, spec)|
  {
  }
}
