/** The user list screen as a state machine: the filtered list it was opened with, the
    selection, and the current page, driven by the screen's buttons. */
module UserList {
  import opened People
  import Filter
  import Paging
  import Selection
  import Team

  /** The screen's state: `filteredData` (fixed while the screen is open),
      `selectedUsers` and `currentPage`. */
  datatype Screen = Screen(filtered: seq<Person>, selected: seq<Person>, page: int)

  /** The presses the screen reacts to. A row's button sends the id shown on that row. */
  datatype Event = PressPrevious | PressNext | PressSelect(id: int)

  /** "Apply Filters" on the home screen opens the list on page 1 with nothing selected. */
  function Open(roster: seq<Person>, c: Filter.Criteria): (s: Screen)
    ensures s.selected == [] && s.page == 1
    ensures s.filtered == Filter.Apply(roster, c)
    ensures forall p :: p in s.filtered <==> p in roster && Filter.Matches(p, c)
  {
    Screen(Filter.Apply(roster, c), [], 1)
  }

  function TotalPages(s: Screen): nat
  {
    Paging.TotalPages(|s.filtered|)
  }

  /** The rows on show: the current page of the filtered list. */
  function Visible(s: Screen): seq<Person>
  {
    Paging.Page(s.filtered, s.page)
  }

  /** One press. A disabled button does nothing; a row button toggles against the whole
      roster, not just the filtered list. */
  function Step(roster: seq<Person>, s: Screen, e: Event): (r: Screen)
    ensures r.filtered == s.filtered
    ensures !e.PressSelect? ==> r.selected == s.selected
    ensures e.PressSelect? ==> r.page == s.page
    ensures e.PressSelect? ==> r.selected == Selection.Toggle(roster, s.selected, e.id)
    ensures e.PressPrevious? ==> r.page == if s.page > 1 then s.page - 1 else s.page
    ensures e.PressNext? ==> r.page == if s.page < TotalPages(s) then s.page + 1 else s.page
  {
    match e
    case PressPrevious =>
      if Paging.PreviousDisabled(s.page) then s else s.(page := Paging.Previous(s.page))
    case PressNext =>
      if Paging.NextDisabled(s.page, TotalPages(s)) then s
      else s.(page := Paging.Next(s.page, TotalPages(s)))
    case PressSelect(id) =>
      s.(selected := Selection.Toggle(roster, s.selected, id))
  }

  /** A sequence of presses, first to last. */
  function Run(roster: seq<Person>, s: Screen, events: seq<Event>): Screen
    decreases |events|
  {
    if |events| == 0 then s else Run(roster, Step(roster, s, events[0]), events[1..])
  }

  /** What every reachable screen satisfies: the page is 1 or within `[1, totalPages]`,
      no id is selected twice, and every selected record comes from the roster. */
  predicate Valid(roster: seq<Person>, s: Screen)
  {
    && 1 <= s.page
    && (s.page == 1 || s.page <= TotalPages(s))
    && UniqueIds(s.selected)
    && forall k :: 0 <= k < |s.selected| ==> s.selected[k] in roster
  }

  lemma StepKeepsValid(roster: seq<Person>, s: Screen, e: Event)
    requires Valid(roster, s)
    ensures Valid(roster, Step(roster, s, e))
  {
    if e.PressSelect? {
      Selection.ToggleKeepsUniqueIds(roster, s.selected, e.id);
      Selection.ToggleDrawsFromRoster(roster, s.selected, e.id);
    }
  }

  /** However the user presses the buttons after opening the list, the screen stays valid. */
  lemma {:induction false} RunKeepsValid(roster: seq<Person>, s: Screen, events: seq<Event>)
    requires Valid(roster, s)
    ensures Valid(roster, Run(roster, s, events))
    decreases |events|
  {
    if |events| > 0 {
      StepKeepsValid(roster, s, events[0]);
      RunKeepsValid(roster, Step(roster, s, events[0]), events[1..]);
    }
  }

  /** Any screen reached from "Apply Filters" and a run of presses is valid. */
  lemma ReachableIsValid(roster: seq<Person>, c: Filter.Criteria, events: seq<Event>)
    ensures Valid(roster, Run(roster, Open(roster, c), events))
  {
    RunKeepsValid(roster, Open(roster, c), events);
  }

  /** On a valid screen over a non-empty list, the current page shows at least one row. */
  lemma VisibleNonEmpty(roster: seq<Person>, s: Screen)
    requires Valid(roster, s) && |s.filtered| > 0
    ensures 0 < |Visible(s)| <= Paging.PageSize
  {
    assert (s.page - 1) * Paging.PageSize <= (TotalPages(s) - 1) * Paging.PageSize;
  }

  /** Pressing a selection button twice from an unselected row restores the screen. */
  lemma SelectTwiceRestores(roster: seq<Person>, s: Screen, id: int)
    requires !HasId(s.selected, id)
    ensures Run(roster, s, [PressSelect(id), PressSelect(id)]) == s
  {
    Selection.ToggleTwiceFromUnselected(roster, s.selected, id);
    var events := [PressSelect(id), PressSelect(id)];
    var s1 := Step(roster, s, PressSelect(id));
    assert events[1..] == [PressSelect(id)];
    assert Run(roster, s1, [PressSelect(id)]) == Step(roster, s1, PressSelect(id));
  }

  /** On a valid screen the team handed on by "Add To Team" is made of roster records with
      distinct ids, so resolving it against the roster loses nobody. */
  method Commit(roster: seq<Person>, s: Screen) returns (team: seq<Person>, domains: set<string>)
    requires Valid(roster, s)
    requires Team.CanAddToTeam(s.selected)
    ensures team == s.selected
    ensures |team| > 0 && UniqueIds(team)
    ensures forall k :: 0 <= k < |team| ==> team[k] in roster && HasId(s.selected, team[k].id)
    ensures forall d :: d in domains <==> exists k :: 0 <= k < |team| && team[k].domain == d
  {
    team, domains := Team.AddToTeam(s.selected);
  }
}
