# TeamBuilderApp core, modelled in Dafny

TeamBuilderApp is a React Native app for putting a team together from a fixed roster of
people. The home screen filters the roster by name, domain, gender and availability. The
user list screen shows the result ten at a time with "Previous Page" / "Next Page" buttons.
A "Select"/"Selected" button on each row toggles that person into an ordered selection.
"Add To Team" passes the selection on as the team.

This project models that logic as pure functions over immutable values:

- `People`: the `Person` record, the full-name text the search runs against, and the
  id predicates `HasId` (some record carries an id) and `UniqueIds`.
- `Strings`: JavaScript's case-sensitive `includes`.
- `Filter`: the `applyFilters` callback (`Matches`) and the filter itself (`Apply`).
- `Paging`: `PAGE_SIZE`, the page count, `Array.prototype.slice` with its clamping, pages,
  and the previous/next updates with their disabling rules.
- `Selection`: `findIndex`, `find` and `handleUserSelection` (`Toggle`).
- `Team`: `addToTeam` with its unused domain set, and the rule enabling its button.
- `UserList`: the list screen as a state machine over button presses. Its invariant holds
  on every screen reachable from "Apply Filters": the page is in range, no id is selected
  twice, and every selected record comes from the roster.

The roster, which the app imports from `userdata.json`, is a `seq<Person>` parameter.

## Model

| member | source | states |
|---|---|---|
| Strings.IncludesIffOccurs | App.js:32 | the left-to-right `includes` scan succeeds exactly when the query occurs as a contiguous run somewhere in the text |
| Filter.MatchesIff | App.js:30-36 | a record passes iff the name query is empty or occurs in first name + space + last name, domain and gender queries are empty or equal the field exactly, and the record is available unless the switch is off |
| Filter.NameSearchIsCaseSensitive | App.js:32 | "Ann" matches "Anna Lee" but not "Hannah Ng": no case folding |
| Filter.Apply | App.js:30-37 | the output holds a record iff the roster holds it and it passes; every output record passes; the output is no longer than the roster |
| Filter.ApplyIsSubsequence | App.js:30-37 | the output is an order-preserving subsequence of the roster |
| Filter.ApplyConcat | App.js:30-37 | filtering a concatenation is the concatenation of the filtered parts, so no record is moved across another |
| Filter.ApplyAllMatching | App.js:30-37 | a list whose records all pass comes back unchanged |
| Filter.ApplyIdempotent | App.js:30-37 | filtering the output again with the same criteria returns it unchanged |
| Filter.ApplyNoCriteria | App.js:32-35 | with empty queries and the switch off the roster comes back unchanged |
| Paging.TotalPages | App.js:94 | the page count is the least k with k * 10 >= n (ceiling division); it is zero only for an empty list |
| Paging.Slice | App.js:133 | `slice` with non-negative bounds returns the run starting at `start`, of length `min(end, n) - start`, and is empty when the bounds cross or start is past the end; it never reads past the list |
| Paging.Page | App.js:131-133 | for page p >= 1: at most 10 items; empty when `(p-1)*10` is at or past the end; otherwise `min(10, n - (p-1)*10)` items, item k being list item `(p-1)*10 + k` |
| Paging.PagesArePrefix | App.js:131-133 | pages 1..k laid end to end are exactly the first `min(10k, n)` items |
| Paging.PagesCoverList | App.js:131-133 | pages 1..totalPages laid end to end reproduce the list, with no omission and no duplicate |
| Paging.PageOfItem | App.js:131-133 | item i is on page `i/10 + 1`, which lies in [1, totalPages], at position `i mod 10` |
| Paging.Previous | App.js:181-182 | the result is at least 1 and never above p; when the button is enabled it is exactly p - 1; at page 1 it stays 1 |
| Paging.Next | App.js:187-188 | the result is at most totalPages and never below p when p is in range; when the button is enabled it is exactly p + 1; at the last page it stays put |
| Paging.NavigationStaysInRange | App.js:181-188 | from any page in [1, totalPages], both updates stay in [1, totalPages] |
| Selection.FirstWithId | App.js:99 | `findIndex` finds a position iff some record has the id; that position holds the id and no earlier one does |
| Selection.Find | App.js:106 | `find` returns a record iff the roster has one with the id, and that record is the first roster record carrying the id |
| Selection.Toggle | App.js:97-113 | a selected id loses its first occurrence, the rest keep their order; an unselected id known to the roster gets its first roster record (the one `find` returns) appended at the end; any other id changes nothing |
| Selection.ToggleKeepsUniqueIds | App.js:97-113 | if no two selected records share an id before a toggle, none do after |
| Selection.ToggleDrawsFromRoster | App.js:106-108 | if the selection holds only roster records, it still does after a toggle |
| Selection.ToggleFlipsMembership | App.js:97-113 | for an id the roster knows, the row's "Selected" state is flipped by a toggle |
| Selection.ToggleKeepsOtherIds | App.js:97-113 | a toggle leaves the selected state of every other id unchanged |
| Selection.ToggleTwiceFromUnselected | App.js:97-113 | selecting and then deselecting an id restores the selection list exactly |
| Selection.ToggleTwiceFromSelected | App.js:101-109 | deselecting and reselecting a selected id moves its roster record to the end of the list, behind the others |
| Selection.ToggleTwiceKeepsSelectedIds | App.js:97-113 | toggling a roster id twice leaves the same set of ids selected |
| Team.CanAddToTeam | App.js:148 | "Add To Team" is enabled iff some id is selected |
| Team.AddToTeam | App.js:116-126 | the team is the selection list itself, in selection order; the domain set holds exactly the domains of the selected records, as a set of strings |
| UserList.Open | App.js:89-92 | the list screen opens on page 1 with nothing selected, over the filter's output (the passing roster records, in roster order) |
| UserList.Step | App.js:169-188 | page presses leave the selection alone; a row press toggles that row's id in the selection and leaves the page alone; an enabled previous/next button moves one page and a disabled one does nothing |
| UserList.StepKeepsValid | App.js:169-188 | every press keeps the page within range, the selected ids distinct and the selected records from the roster |
| UserList.RunKeepsValid | App.js:169-188 | any run of presses keeps that invariant |
| UserList.ReachableIsValid | App.js:89-92 | every screen reachable from "Apply Filters" satisfies the invariant, including over an empty filtered list |
| UserList.VisibleNonEmpty | App.js:130-135 | on a reachable screen over a non-empty list, the current page shows between 1 and 10 rows |
| UserList.SelectTwiceRestores | App.js:169-171 | pressing an unselected row's button twice gives back the same screen |
| UserList.Commit | App.js:116-126 | on a reachable screen with "Add To Team" enabled, the team is the selection list itself, non-empty, has distinct ids, holds only roster records that are selected, and its domain set holds exactly their domains |

## Behaviour worth knowing

- The selection is an ordered list, not a set. Deselecting and reselecting a person moves
  them to the end (`Selection.ToggleTwiceFromSelected`). Toggling twice gives back the same
  list only when the person started out unselected. It always gives back the same set of
  ids (`Selection.ToggleTwiceKeepsSelectedIds`).
- A row press looks the id up in the whole roster, not only in the filtered list.
- The team is the selection list as it stands. It is not looked up again in the roster.
  `UserList.Commit` shows such a lookup would drop nobody, because every selected record
  is a roster record.
- An empty filtered list gives zero pages. The screen then stays on page 1 with both
  buttons disabled. The code never shows a separate "empty page 1", and it never clamps
  the page number, because that number can only move through the buttons.
- The name search is case-sensitive, so "Ann" does not find "Hannah".

## Left out

- React components, hooks, navigation (`navigate`/`getParam`), images, the `FlatList`, the
  team details screen and the style sheet: presentation only.
- Loading `userdata.json`: the roster is a parameter. Unique roster ids are not assumed,
  since `find` takes the first match either way.
- `Math.ceil` on a floating-point quotient: modelled as integer ceiling division, which
  gives the same result for every list length a roster can have.
- The "Page X of Y" text: display only.
- Keeping the selection across re-filtering: the code does not do it. Each "Apply Filters"
  opens a fresh list screen (`UserList.Open`) with an empty selection on page 1.
- Paging.NavigationStaysInRange: stated only for 1 <= p <= totalPages. When totalPages is 0,
  both buttons are disabled, and `UserList.ReachableIsValid` covers that state instead.
- Team.AddToTeam: the domain set keeps every domain string, including `__proto__`. The
  app's plain `{}` object silently drops that key, because assigning it calls the
  prototype setter. The object is never read afterwards, so this difference is not modelled.
- Reporting malformed roster records: the code has no such check, and the roster's
  schema is taken as given.
