/**
 * The client's `TaskConsoleHandler`: the paging loop of the task search, the
 * helpers that merge console input into a task being edited, and the due-date
 * prompt. Console lines arrive as a sequence (each read with `trim()`, as
 * `promptInput` does); when the lines run out the scanner throws and the
 * operation ends.
 */
module TaskConsoleHandler {
  import opened Wrappers
  import opened Text
  import opened Decimal
  import opened Dates
  import opened Model

  // ---------------------------------------------------------------------------
  // Searching page by page
  // ---------------------------------------------------------------------------

  const FirstPage: int := 0
  const PageSize: int := 10

  /** The query parameter the search menu's choice stands for; the line is trimmed before the `switch`. */
  function SearchParameter(line: string): (r: Option<string>)
    ensures r.Some? <==> Trim(line) == "1" || Trim(line) == "2" || Trim(line) == "3" || Trim(line) == "4"
    ensures r.Some? ==> r.value in ["id", "name", "status", "priority"]
  {
    var choice := Trim(line);
    if choice == "1" then Some("id")
    else if choice == "2" then Some("name")
    else if choice == "3" then Some("status")
    else if choice == "4" then Some("priority")
    else None
  }

  /** Blanks around the choice do not matter, and a choice outside the menu gives no parameter. */
  lemma SearchParameterTrimmed()
    ensures SearchParameter(" 1") == Some("id") && SearchParameter("4 ") == Some("priority")
    ensures SearchParameter("5") == None
  {
    TrimKeeps("1");
    TrimKeeps("4");
    TrimKeeps("5");
    assert " 1"[1..] == "1";
    assert TrimStart("4 ") == "4 ";
  }

  /** What the client reads from a page response: how many tasks it holds, its page number and the page count. */
  datatype PageView = PageView(items: nat, pageNumber: int, totalPages: int)

  /** What one round of the loop shows. */
  datatype Event =
    | Shown(requested: int, shownNumber: int, totalPages: int)  // "Page <shownNumber> of <totalPages>"
    | NoneFound                                           // the first page is empty
    | NoMore                                              // a later page is empty

  /** The effect of a navigation choice: go on at a page, or quit. */
  datatype Step = GoTo(page: int) | Quit

  /** The navigation keys; any other line is `Other`. */
  datatype NavKey = Next | Previous | QuitKey | Other

  /** `scanner.nextLine().trim().toUpperCase()` read as a key, so "n" and " N " are both N. */
  function ReadNavKey(line: string): NavKey {
    var s := ToUpper(Trim(line));
    if s == "N" then Next else if s == "P" then Previous else if s == "Q" then QuitKey else Other
  }

  /** The `switch (navChoice)`: N and P move only while there is a page to move to. */
  function NavigationStep(page: int, totalPages: int, key: NavKey): (r: Step)
    ensures r.Quit? <==> key == QuitKey
    ensures key == Next ==> r == GoTo(if page < totalPages - 1 then page + 1 else page)
    ensures key == Previous ==> r == GoTo(if page > 0 then page - 1 else page)
    ensures key == Other ==> r == GoTo(page)
  {
    match key
    case Next => GoTo(if page < totalPages - 1 then page + 1 else page)
    case Previous => GoTo(if page > 0 then page - 1 else page)
    case QuitKey => Quit
    case Other => GoTo(page)
  }

  /** A step from a page of the result never leaves the result's pages. */
  lemma NavigationStaysInRange(page: int, totalPages: int, key: NavKey)
    requires 0 <= page < totalPages
    ensures NavigationStep(page, totalPages, key).GoTo? ==>
      0 <= NavigationStep(page, totalPages, key).page < totalPages
    ensures NavigationStep(page, totalPages, key).GoTo? ==>
      -1 <= NavigationStep(page, totalPages, key).page - page <= 1
  {
  }

  /**
   * The rounds of the loop from `page` on, as the server answers each request
   * (`server(p)` for page `p` of the fixed criteria) and the user answers
   * each prompt: an empty page ends it, a single page ends it after it is
   * shown, and otherwise the user's next line decides.
   */
  function Rounds(server: int -> PageView, page: int, choices: seq<string>): (r: seq<Event>)
    ensures |r| >= 1
    decreases |choices|
  {
    var response := server(page);
    if response.items == 0 then [if page == 0 then NoneFound else NoMore]
    else
      var shown := Shown(page, response.pageNumber + 1, response.totalPages);
      if response.totalPages <= 1 || choices == [] then [shown]
      else
        match NavigationStep(page, response.totalPages, ReadNavKey(choices[0]))
        case Quit => [shown]
        case GoTo(next) => [shown] + Rounds(server, next, choices[1..])
  }

  /**
   * The `while (continuePagination)` loop of `searchTasks`: each round
   * requests the current page and shows it or stops.
   */
  method SearchRounds(server: int -> PageView, choices: seq<string>) returns (events: seq<Event>)
    ensures events == Rounds(server, FirstPage, choices)
  {
    ghost var all := Rounds(server, FirstPage, choices);
    var page := FirstPage;
    var continuePagination := true;
    var rest := choices;
    events := [];
    while continuePagination
      invariant continuePagination ==> events + Rounds(server, page, rest) == all
      invariant !continuePagination ==> events == all
      decreases |rest|, continuePagination
    {
      var shown, go, next, left := Round(server, page, rest);
      if go {
        assert events + (shown + Rounds(server, next, left)) == (events + shown) + Rounds(server, next, left);
      } else {
        assert shown + [] == shown;
      }
      events := events + shown;
      continuePagination := go;
      page, rest := next, left;
    }
  }

  /**
   * The body of the loop: request `page`, show it (or report an empty page),
   * and unless the loop ends, read the next line and move; `shown` is what
   * this round shows, followed by the rounds from `next` when `go` holds.
   */
  method Round(server: int -> PageView, page: int, rest: seq<string>)
    returns (shown: seq<Event>, go: bool, next: int, left: seq<string>)
    ensures Rounds(server, page, rest) == shown + (if go then Rounds(server, next, left) else [])
    ensures go ==> |left| < |rest|
    ensures |left| <= |rest|
  {
    next, left := page, rest;
    var response := server(page);
    if response.items == 0 {
      shown, go := [if page == 0 then NoneFound else NoMore], false;
      return;
    }
    shown := [Shown(page, response.pageNumber + 1, response.totalPages)];
    if response.totalPages <= 1 || rest == [] {
      go := false;
      return;
    }
    var navChoice := ReadNavKey(rest[0]);
    left := rest[1..];
    var quit;
    next, quit := ApplyNavChoice(page, response.totalPages, navChoice);
    go := !quit;
    RoundsStep(server, page, rest);
  }

  /** The `switch (navChoice)` of one round. */
  method ApplyNavChoice(page: int, totalPages: int, navChoice: NavKey) returns (next: int, quit: bool)
    ensures quit <==> NavigationStep(page, totalPages, navChoice).Quit?
    ensures !quit ==> next == NavigationStep(page, totalPages, navChoice).page
  {
    next, quit := page, false;
    match navChoice {
      case Next =>
        if page < totalPages - 1 {
          next := page + 1;
        }
      case Previous =>
        if page > 0 {
          next := page - 1;
        }
      case QuitKey =>
        quit := true;
      case Other =>
    }
  }

  /** One round of a multi-page result with a line to read: the shown page, then the rounds after the step. */
  lemma RoundsStep(server: int -> PageView, page: int, choices: seq<string>)
    requires server(page).items > 0 && server(page).totalPages > 1 && choices != []
    ensures var response := server(page);
      var shown := Shown(page, response.pageNumber + 1, response.totalPages);
      Rounds(server, page, choices) ==
        match NavigationStep(page, response.totalPages, ReadNavKey(choices[0]))
        case Quit => [shown]
        case GoTo(next) => [shown] + Rounds(server, next, choices[1..])
  {
  }

  /** The events of the loop, after the first, follow only navigation from a shown page. */
  predicate Chained(es: seq<Event>) {
    forall i :: 0 <= i < |es| - 1 ==> es[i].Shown? && es[i].totalPages > 1
  }

  /**
   * The shape of the rounds from `page`: every round but the last shows a
   * page of several; "no tasks found" comes only first; the requested pages
   * are never negative and move by at most one a round, starting at `page`.
   */
  predicate Navigated(es: seq<Event>, page: int) {
    && |es| >= 1
    && Chained(es)
    && (forall i :: 0 < i < |es| ==> !es[i].NoneFound?)
    && (forall i :: 0 <= i < |es| ==> es[i].Shown? ==> es[i].requested >= 0)
    && (forall i :: 0 <= i < |es| - 1 ==> es[i + 1].Shown? ==>
          -1 <= es[i + 1].requested - es[i].requested <= 1)
    && (es[0].Shown? ==> es[0].requested == page)
  }

  /** A shown page of several, followed by the rounds from a neighbouring page. */
  lemma NavigatedCons(shown: Event, page: int, next: int, tail: seq<Event>)
    requires shown.Shown? && shown.totalPages > 1 && shown.requested == page && page >= 0
    requires -1 <= next - page <= 1
    requires Navigated(tail, next) && !tail[0].NoneFound?
    ensures Navigated([shown] + tail, page)
  {
    var es := [shown] + tail;
    assert forall i :: 1 <= i < |es| ==> es[i] == tail[i - 1];
  }

  /** The first round of the rounds from `page`. */
  lemma RoundsFirst(server: int -> PageView, page: int, choices: seq<string>)
    ensures Rounds(server, page, choices)[0] ==
      if server(page).items == 0 then (if page == 0 then NoneFound else NoMore)
      else Shown(page, server(page).pageNumber + 1, server(page).totalPages)
  {
  }

  /**
   * The rounds from a page that is not negative keep the navigated shape,
   * when page 0 is not empty or the loop starts there: page 0 is not empty
   * once it has been shown, so "no tasks found" comes only first.
   */
  lemma {:induction false} RoundsProperties(server: int -> PageView, page: int, choices: seq<string>)
    requires page >= 0 && (page == 0 || server(0).items > 0)
    ensures Navigated(Rounds(server, page, choices), page)
    decreases |choices|
  {
    var response := server(page);
    if response.items != 0 && response.totalPages > 1 && choices != [] {
      RoundsStep(server, page, choices);
      var step := NavigationStep(page, response.totalPages, ReadNavKey(choices[0]));
      if step.GoTo? {
        RoundsProperties(server, step.page, choices[1..]);
        RoundsFirst(server, step.page, choices[1..]);
        NavigatedCons(Shown(page, response.pageNumber + 1, response.totalPages), page, step.page,
          Rounds(server, step.page, choices[1..]));
      }
    }
  }

  /** The page number shown is the response's zero-based number plus one. */
  lemma FirstRoundLabel(server: int -> PageView, choices: seq<string>)
    requires server(0).items > 0
    ensures Rounds(server, 0, choices)[0] == Shown(0, server(0).pageNumber + 1, server(0).totalPages)
  {
  }

  /** With a single page of results, the loop shows it and asks nothing. */
  lemma SinglePageEndsLoop(server: int -> PageView, choices: seq<string>)
    requires server(0).items > 0 && server(0).totalPages <= 1
    ensures |Rounds(server, 0, choices)| == 1
  {
  }

  /** Pressing N on the last page asks for the same page again. */
  lemma NextOnLastPageStays(server: int -> PageView, page: int, rest: seq<string>)
    requires server(page).items > 0 && server(page).totalPages > 1 && page == server(page).totalPages - 1
    ensures Rounds(server, page, [" n "] + rest) == [Shown(page, server(page).pageNumber + 1, server(page).totalPages)] + Rounds(server, page, rest)
  {
    assert ReadNavKey(" n ") == Next by {
      assert Trim(" n ") == "n";
      assert ToUpper("n") == "N";
    }
    assert ([" n "] + rest)[1..] == rest;
  }

  // ---------------------------------------------------------------------------
  // Merging edits into a task
  // ---------------------------------------------------------------------------

  /** The priority an edit line names in any case, or None to keep the current one. */
  function PriorityInput(line: string): (r: Option<Priority>)
    ensures r.Some? <==> exists p :: PriorityName(p) == ToUpper(Trim(line))
    ensures r.Some? ==> PriorityName(r.value) == ToUpper(Trim(line))
  {
    var s := ToUpper(Trim(line));
    if s == "" then None
    else
      var r := ParsePriority(s);
      if r.Some? then r
      else
        assert forall p :: PriorityName(p) != s;
        None
  }

  /** The status an edit line names in any case, or None to keep the current one. */
  function StatusInput(line: string): (r: Option<Status>)
    ensures r.Some? <==> exists st :: StatusName(st) == ToUpper(Trim(line))
    ensures r.Some? ==> StatusName(r.value) == ToUpper(Trim(line))
  {
    var s := ToUpper(Trim(line));
    if s == "" then None
    else
      var r := ParseStatus(s);
      if r.Some? then r
      else
        assert forall st :: StatusName(st) != s;
        None
  }

  /**
   * The project change two lines ask for: None keeps the current project;
   * after "yes" (in any case) an empty line unassigns and a number assigns,
   * anything else keeps it.
   */
  function ProjectInput(answer: string, idLine: string): (r: Option<Option<int>>)
    ensures ToLower(Trim(answer)) != "yes" ==> r.None?
    ensures ToLower(Trim(answer)) == "yes" && Trim(idLine) == "" ==> r == Some(None)
    ensures ToLower(Trim(answer)) == "yes" && Trim(idLine) != "" ==>
      (r.Some? <==> ParseLong(Trim(idLine)).Some?) && (r.Some? ==> r == Some(ParseLong(Trim(idLine))))
  {
    if ToLower(Trim(answer)) != "yes" then None
    else if Trim(idLine) == "" then Some(None)
    else
      var id := ParseLong(Trim(idLine));
      if id.Some? then Some(id) else None
  }

  /** Lower-case input picks the constant with the upper-case name. */
  lemma EditInputAnyCase()
    ensures PriorityInput(" high") == Some(High)
    ensures StatusInput("in_progress ") == Some(InProgress)
  {
    assert TrimStart(" high") == "high";
    assert TrimEnd("high") == "high";
    assert ToUpper("high") == "HIGH";
    assert TrimStart("in_progress ") == "in_progress ";
    assert TrimEnd("in_progress ") == "in_progress";
    assert ToUpper("in_progress") == "IN_PROGRESS";
  }

  /** A line naming no priority, or an empty one, keeps the current priority. */
  lemma EditInputKeeps()
    ensures PriorityInput("urgent") == None
    ensures PriorityInput("") == None
  {
    TrimKeeps("urgent");
    assert ToUpper("urgent") == "URGENT";
  }

  /** An id line of Arabic-Indic digits assigns the project `Long.parseLong` reads from it. */
  lemma ProjectInputScriptDigits()
    ensures ProjectInput("yes", "\U{0661}") == Some(Some(1))
  {
    TrimKeeps("yes");
    TrimKeeps("\U{0661}");
    assert ToLower("yes") == "yes";
    ParseScriptDigits();
  }

  /** The client's `TaskDto` as the edit form updates it. */
  class TaskDto {
    var id: Option<int>
    var name: Option<string>
    var description: Option<string>
    var priority: Option<Priority>
    var status: Option<Status>
    var dueDate: Option<Date>
    var projectId: Option<int>

    constructor (id: Option<int>, name: Option<string>, description: Option<string>, priority: Option<Priority>,
                 status: Option<Status>, dueDate: Option<Date>, projectId: Option<int>)
      ensures this.id == id && this.name == name && this.description == description && this.priority == priority
      ensures this.status == status && this.dueDate == dueDate && this.projectId == projectId
    {
      this.id := id;
      this.name := name;
      this.description := description;
      this.priority := priority;
      this.status := status;
      this.dueDate := dueDate;
      this.projectId := projectId;
    }

    /** `updateTaskName`: an empty line keeps the name, anything else replaces it trimmed. */
    method UpdateTaskName(line: string)
      modifies this
      ensures Trim(line) == "" ==> name == old(name)
      ensures Trim(line) != "" ==> name == Some(Trim(line))
      ensures old(name).Some? ==> name.Some?
      ensures id == old(id) && description == old(description) && priority == old(priority)
      ensures status == old(status) && dueDate == old(dueDate) && projectId == old(projectId)
    {
      var newName := Trim(line);
      if newName != "" {
        name := Some(newName);
      }
    }

    /** `updateTaskDescription`: the same rule for the description; it cannot be cleared here. */
    method UpdateTaskDescription(line: string)
      modifies this
      ensures Trim(line) == "" ==> description == old(description)
      ensures Trim(line) != "" ==> description == Some(Trim(line))
      ensures id == old(id) && name == old(name) && priority == old(priority)
      ensures status == old(status) && dueDate == old(dueDate) && projectId == old(projectId)
    {
      var newDesc := Trim(line);
      if newDesc != "" {
        description := Some(newDesc);
      }
    }

    /** `updateTaskPriority`: a constant's name in any case replaces the priority; anything else keeps it. */
    method UpdateTaskPriority(line: string)
      modifies this
      ensures priority == (if PriorityInput(line).Some? then PriorityInput(line) else old(priority))
      ensures id == old(id) && name == old(name) && description == old(description)
      ensures status == old(status) && dueDate == old(dueDate) && projectId == old(projectId)
    {
      var newPriority := ToUpper(Trim(line));
      if newPriority != "" {
        var parsed := ParsePriority(newPriority);
        if parsed.Some? {
          priority := parsed;
        }
      }
    }

    /** `updateTaskStatus`: the same rule for the status. */
    method UpdateTaskStatus(line: string)
      modifies this
      ensures status == (if StatusInput(line).Some? then StatusInput(line) else old(status))
      ensures id == old(id) && name == old(name) && description == old(description)
      ensures priority == old(priority) && dueDate == old(dueDate) && projectId == old(projectId)
    {
      var newStatus := ToUpper(Trim(line));
      if newStatus != "" {
        var parsed := ParseStatus(newStatus);
        if parsed.Some? {
          status := parsed;
        }
      }
    }

    /** `updateTaskProject`: the second line is read only after "yes". */
    method UpdateTaskProject(answer: string, idLine: string)
      modifies this
      ensures projectId == (if ProjectInput(answer, idLine).Some? then ProjectInput(answer, idLine).value else old(projectId))
      ensures id == old(id) && name == old(name) && description == old(description)
      ensures priority == old(priority) && status == old(status) && dueDate == old(dueDate)
    {
      var changeProject := ToLower(Trim(answer));
      if changeProject == "yes" {
        var projectIdText := Trim(idLine);
        if projectIdText == "" {
          projectId := None;
        } else {
          var parsed := ParseLong(projectIdText);
          if parsed.Some? {
            projectId := parsed;
          }
        }
      }
    }
  }

  // ---------------------------------------------------------------------------
  // The due-date prompt
  // ---------------------------------------------------------------------------

  /** How the prompt ends: no date, a date, or the input running out. */
  datatype DateAnswer = NoDate | Due(date: Date) | InputEnded

  /** A line the prompt turns down: a text that is not a date, or a date before today. */
  predicate RejectedDateLine(line: string, today: Date) {
    Trim(line) != "" && (ParseIsoDate(Trim(line)).None? || IsBefore(ParseIsoDate(Trim(line)).value, today))
  }

  /** The answer of the first line the prompt accepts: an empty line, or a date on or after today. */
  function FirstAcceptedDate(lines: seq<string>, today: Date): (r: DateAnswer)
    decreases |lines|
  {
    if lines == [] then InputEnded
    else if Trim(lines[0]) == "" then NoDate
    else if RejectedDateLine(lines[0], today) then FirstAcceptedDate(lines[1..], today)
    else Due(ParseIsoDate(Trim(lines[0])).value)
  }

  /** `promptForValidDate`: it asks again until a line is empty or holds a date not in the past. */
  method PromptForValidDate(lines: seq<string>, today: Date) returns (r: DateAnswer, used: nat)
    ensures r == FirstAcceptedDate(lines, today)
    ensures used <= |lines| && forall i :: 0 <= i < used - 1 ==> RejectedDateLine(lines[i], today)
  {
    var i := 0;
    while i < |lines|
      invariant 0 <= i <= |lines|
      invariant FirstAcceptedDate(lines[i..], today) == FirstAcceptedDate(lines, today)
      invariant forall j :: 0 <= j < i ==> RejectedDateLine(lines[j], today)
    {
      var input := Trim(lines[i]);
      if input == "" {
        return NoDate, i + 1;
      }
      var date := ParseIsoDate(input);
      if date.Some? && !IsBefore(date.value, today) {
        return Due(date.value), i + 1;
      }
      assert lines[i..][1..] == lines[i + 1..];
      i := i + 1;
    }
    return InputEnded, |lines|;
  }

  /** A date answer is on or after today, read from a line that every line before it leads up to by being turned down. */
  lemma {:induction false} FirstAcceptedDateDue(lines: seq<string>, today: Date)
    requires FirstAcceptedDate(lines, today).Due?
    ensures var d := FirstAcceptedDate(lines, today).date;
      && !IsBefore(d, today) && ValidDate(d)
      && exists i :: 0 <= i < |lines| && ParseIsoDate(Trim(lines[i])) == Some(d)
           && forall j :: 0 <= j < i ==> RejectedDateLine(lines[j], today)
    decreases |lines|
  {
    var d := FirstAcceptedDate(lines, today).date;
    if RejectedDateLine(lines[0], today) {
      var tail := lines[1..];
      FirstAcceptedDateDue(tail, today);
      var i :| 0 <= i < |tail| && ParseIsoDate(Trim(tail[i])) == Some(d)
        && forall j :: 0 <= j < i ==> RejectedDateLine(tail[j], today);
      assert forall j :: 1 <= j <= i ==> lines[j] == tail[j - 1];
      assert ParseIsoDate(Trim(lines[i + 1])) == Some(d);
    } else {
      assert ParseIsoDate(Trim(lines[0])) == Some(d);
    }
  }

  /** No date comes only from an empty line, after lines that were all turned down. */
  lemma {:induction false} FirstAcceptedDateNone(lines: seq<string>, today: Date)
    requires FirstAcceptedDate(lines, today).NoDate?
    ensures exists i :: 0 <= i < |lines| && Trim(lines[i]) == "" && forall j :: 0 <= j < i ==> RejectedDateLine(lines[j], today)
    decreases |lines|
  {
    if Trim(lines[0]) != "" {
      var tail := lines[1..];
      FirstAcceptedDateNone(tail, today);
      var i :| 0 <= i < |tail| && Trim(tail[i]) == "" && forall j :: 0 <= j < i ==> RejectedDateLine(tail[j], today);
      assert forall j :: 1 <= j <= i ==> lines[j] == tail[j - 1];
      assert Trim(lines[i + 1]) == "";
    }
  }

  /** The input runs out only when every line was turned down. */
  lemma {:induction false} FirstAcceptedDateEnded(lines: seq<string>, today: Date)
    requires FirstAcceptedDate(lines, today).InputEnded?
    ensures forall j :: 0 <= j < |lines| ==> RejectedDateLine(lines[j], today)
    decreases |lines|
  {
    if lines != [] {
      var tail := lines[1..];
      FirstAcceptedDateEnded(tail, today);
      assert forall j :: 1 <= j < |lines| ==> lines[j] == tail[j - 1];
    }
  }

  /** Today's date is accepted; yesterday's is turned down and the prompt asks again. */
  lemma TodayAcceptedYesterdayNot(today: Date, yesterday: Date, rest: seq<string>)
    requires ValidDate(today) && 0 <= today.year <= 9999
    requires ValidDate(yesterday) && 0 <= yesterday.year <= 9999 && IsBefore(yesterday, today)
    ensures FirstAcceptedDate([FormatIsoDate(today)] + rest, today) == Due(today)
    ensures FirstAcceptedDate([FormatIsoDate(yesterday)] + rest, today) == FirstAcceptedDate(rest, today)
  {
    ParseFormat(today);
    ParseFormat(yesterday);
    TrimOfDate(today);
    TrimOfDate(yesterday);
    IsBeforeStrictTotal(today, today, today);
    assert ([FormatIsoDate(yesterday)] + rest)[1..] == rest;
  }

  /** A printed date has no surrounding blanks, so trimming keeps it. */
  lemma TrimOfDate(d: Date)
    requires 0 <= d.year <= 9999 && 1 <= d.month <= 12 && 1 <= d.day <= 31
    ensures Trim(FormatIsoDate(d)) == FormatIsoDate(d)
  {
    var s := FormatIsoDate(d);
    assert s[0] in s[..4] && s[9] in s[8..];
    assert !IsTrimmable(s[0]) && !IsTrimmable(s[9]);
    TrimKeeps(s);
  }
}
