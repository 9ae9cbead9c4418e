# Duty sign-up: conflict engine and assignment state

This project models the core of a small duty sign-up screen. The screen shows a catalog of
work shifts ("duties"). The user signs up for duties by clicking them. Before allowing a
sign-up, the screen checks the candidate against the duties already chosen. It warns about an
overlap (a conflict), or about less than 8 hours of rest before or after. The model covers
four parts:

- `Duties` (`duties.dfy`) covers `findWarning` and `warningText`. The function `FirstWarning`
  is a reference definition: the first assigned duty within the rest margin decides the
  warning. The method `FindWarning` is the source's loop, with its early returns, proved equal
  to that definition and to a declarative first-match specification. Lemmas give the rest rule
  (no warning exactly when every assigned duty is at least 8 hours away). They also say what
  each warning kind means for the two intervals, and that the warning texts are injective. The
  test file's scenarios are restated as lemmas.
- `MembershipSet` (`use_set.dfy`) covers `useSet`. It is a class holding a `set<int>`, with
  `Has`, `Add`, `Delete` and `AsArray`. `Add` and `Delete` leave the set as it was when the
  member is already present (or absent).
- `DutySignUp` (`duty_sign_up.dfy`) covers `useDuties`:
  - the stable sort by start, modelled as an insertion sort, proved sorted, a permutation and
    stable;
  - the `partition` into assigned and unassigned duties, proved to select by id, to be a
    permutation and to keep order;
  - the warnings map, keyed by id.
- The class `Assignments` holds the sorted catalog and the set of assigned ids. Its methods
  `ClickUnassigned` and `ClickAssigned` are the two click handlers of the screen.
  `ClickUnassigned` either returns the alert text and changes nothing, or assigns the duty and
  moves exactly that duty between the two lists. `ClickAssigned` always moves the duty back.

Timestamps are integers counting milliseconds. `HourMs` is 3 600 000 and the rest margin is
8 hours. Intervals overlap only when they share more than an endpoint, which is the default
of `areIntervalsOverlapping` in date-fns.

How the code labels the two kinds of short rest:

- A candidate that starts half an hour after an assigned duty ends gets `noRestBefore`
  ("Less than 8 hours since ..."). One that ends half an hour before an assigned duty starts
  gets `noRestAfter` ("Less than 8 hours until ...").
- With 09:00–13:00 assigned, a 13:15–17:00 candidate gets `NoRestBefore`
  (`FollowingDutyIsNoRestBefore`).
- An assigned duty that starts exactly when the candidate ends is not an overlap. It fails
  the test `duty.end < assignedDuty.start`, so it is classified `NoRestBefore` ("since") even
  though it comes after the candidate. `TouchingStartIsNoRestBefore` records this behaviour.

## Model

| member | source | states |
|---|---|---|
| Duties.FindWarning | src/utils/duties.ts:34-60 | The loop returns nothing exactly when no assigned duty comes within 8 hours of the candidate. Otherwise it returns the classification of the first assigned duty that does. The result equals the reference definition `FirstWarning` |
| Duties.FirstWarningNoneIff | src/utils/duties.ts:41-50 | No warning if and only if every assigned duty misses the candidate's interval widened by 8 hours on each side |
| Duties.FirstWarningAtFirstRelevant | src/utils/duties.ts:46-57 | The first assigned duty within the margin (all before it outside) determines the warning, by `Classify` |
| Duties.FirstWarningHasSource | src/utils/duties.ts:46-57 | Every warning comes from some first relevant assigned duty and is its classification |
| Duties.FirstWarningIgnoresLater | src/utils/duties.ts:51-57 | Once a warning is found, assigned duties appended later cannot change it (the loop returns early) |
| Duties.FirstWarningSkipsIrrelevant | src/utils/duties.ts:47-50 | Assigned duties outside the margin can be prepended without changing the result (`continue`) |
| Duties.WarningNamesAssignedDuty | src/utils/duties.ts:52-56 | The name in a warning is the name of an assigned duty that is within the margin |
| Duties.NoWarningIffRested | src/utils/duties.ts:41-50 | No warning if and only if every assigned duty ends at least 8 hours before the candidate starts or starts at least 8 hours after it ends |
| Duties.ClassifyMeaning | src/utils/duties.ts:51-57 | For a relevant duty: `Conflict` if and only if the intervals overlap; `NoRestAfter` means the assigned duty starts after the candidate ends, within 8 hours; `NoRestBefore` means no overlap and either a touching start or an end within 8 hours before the candidate's start |
| Duties.SameTimeIsConflict | src/DutySignUp.test.tsx:101-122 | A candidate starting half an hour into a longer assigned duty gets `Conflict` with that duty's name |
| Duties.JustBeforeIsNoRestAfter | src/DutySignUp.test.tsx:101-125 | A candidate ending half an hour before the assigned duty starts gets `NoRestAfter` ("until") |
| Duties.JustAfterIsNoRestBefore | src/DutySignUp.test.tsx:101-128 | A candidate starting half an hour after the assigned duty ends gets `NoRestBefore` ("since") |
| Duties.TouchingStartIsNoRestBefore | src/utils/duties.ts:51-56 | An assigned duty starting exactly at the candidate's end is not a conflict and is classified `NoRestBefore` |
| Duties.LongAfterHasNoWarning | src/DutySignUp.test.tsx:101-131 | A candidate starting 8 hours or more after the assigned duty ends (8.1 h, 50 h in the tests) has no warning |
| Duties.FollowingDutyIsNoRestBefore | src/utils/duties.ts:53-56 | With 09:00–13:00 assigned, a 13:15–17:00 candidate gets `NoRestBefore` with the assigned duty's name |
| Duties.WarningText | src/utils/duties.ts:62-71 | The text of every warning contains the assigned duty's name |
| Duties.WarningTextInjective | src/utils/duties.ts:62-71 | Two warnings with the same text are the same warning (kind and name) |
| MembershipSet.IdSet.constructor | src/utils/useSet.ts:9 | The set starts with exactly the distinct initial members |
| MembershipSet.IdSet.Has | src/utils/useSet.ts:11 | `has` is membership |
| MembershipSet.IdSet.Add | src/utils/useSet.ts:12-23 | The new set is the old one plus the member. A present member leaves the set unchanged; a new one grows it by one |
| MembershipSet.IdSet.Delete | src/utils/useSet.ts:25-36 | The new set is the old one minus the member. An absent member leaves the set unchanged; a present one shrinks it by one |
| MembershipSet.IdSet.AsArray | src/utils/useSet.ts:38 | `Array.from(set)` lists every member exactly once and nothing else: no duplicates, same members, same size |
| DutySignUp.SortByStartSorted | src/DutySignUp.tsx:74-77 | The sorted view is in ascending order of start |
| DutySignUp.SortByStartPermutes | src/DutySignUp.tsx:74-77 | The sorted view is a permutation of the catalog |
| DutySignUp.SortByStartStable | src/DutySignUp.tsx:74-77 | Duties with equal start keep their catalog order (lodash `sortBy` is stable) |
| DutySignUp.SortByStartKeepsDistinctIds | src/DutySignUp.tsx:74-77 | Sorting a catalog with distinct ids keeps them distinct |
| DutySignUp.InsertPermutes | src/DutySignUp.tsx:74-77 | One insertion step adds exactly the inserted duty |
| DutySignUp.InsertSorted | src/DutySignUp.tsx:74-77 | One insertion step into a sorted list keeps it sorted |
| DutySignUp.PartitionSelects | src/DutySignUp.tsx:80-82 | The assigned side holds only duties whose id is in the set; the unassigned side only the others |
| DutySignUp.PartitionPermutes | src/DutySignUp.tsx:80-82 | The two sides together are a permutation of the sorted catalog |
| DutySignUp.PartitionKeepsOrder | src/DutySignUp.tsx:80-82 | Each side is a subsequence of the sorted catalog (order preserved) |
| DutySignUp.PartitionSpec | src/DutySignUp.tsx:80-82 | The three facts above together: `partition`'s full contract |
| DutySignUp.PartitionSides | src/DutySignUp.tsx:80-82 | A catalog duty is on the assigned side if and only if its id is in the set, and on the unassigned side if and only if it is not |
| DutySignUp.PartitionMembers | src/DutySignUp.tsx:80-82 | Both sides hold only catalog duties |
| DutySignUp.PartitionKeepsDistinctIds | src/DutySignUp.tsx:80-82 | Both sides of a catalog with distinct ids have distinct ids |
| DutySignUp.PartitionNothingAssigned | src/DutySignUp.tsx:78-82 | With the initial empty set (or no catalog id in it), nothing is assigned and the unassigned side is the whole sorted catalog |
| DutySignUp.PartitionIgnoresFreeId | src/DutySignUp.tsx:80-82 | An id that no catalog duty carries does not change either side |
| DutySignUp.AssignMovesExactlyOne | src/DutySignUp.tsx:80-95 | Adding an unassigned duty's id moves that duty, and only it, from the unassigned side to the assigned one (multisets and lengths) |
| DutySignUp.UnassignMovesExactlyOne | src/DutySignUp.tsx:80-96 | Removing an assigned duty's id moves that duty, and only it, back to the unassigned side |
| DutySignUp.WarningsMap | src/DutySignUp.tsx:84-89 | The keys are exactly the ids of the unassigned duties, and every entry is the warning of an unassigned duty with that id |
| DutySignUp.WarningsMapAt | src/DutySignUp.tsx:84-89 | With distinct ids, each unassigned duty's entry is its own warning against the assigned duties |
| DutySignUp.AssignedHaveNoWarning | src/DutySignUp.tsx:84-89 | An assigned duty has no entry in the warnings map, so its card shows no warning |
| DutySignUp.Assignments.constructor | src/DutySignUp.tsx:67-82 | First render: the catalog sorted by start, with distinct ids and well-formed intervals; an empty id set (so every assigned id is a catalog id); nothing assigned, everything unassigned |
| DutySignUp.Assignments.Assign | src/DutySignUp.tsx:95 | `assign(id)` adds the id to the set |
| DutySignUp.Assignments.Unassign | src/DutySignUp.tsx:96 | `unassign(id)` removes the id from the set |
| DutySignUp.Assignments.ClickUnassigned | src/DutySignUp.tsx:32-43 | An alert if and only if the duty has a warning. The alert reads "You can't sign up for this duty. " followed by the warning's text, and the set stays unchanged. Otherwise the duty's id is added and exactly that duty moves to the assigned list. Only catalog ids are ever added, so the set stays within the catalog's ids |
| DutySignUp.Assignments.ClickAssigned | src/DutySignUp.tsx:56 | The duty's id is removed and exactly that duty moves back to the unassigned list; the set stays within the catalog's ids |
| DutySignUp.AssignThenUnassign | src/DutySignUp.test.tsx:83-98 | Signing up for a duty without a warning and clicking it again restores the set, both lists and the warnings map |

## Left out

- Loading `data.json` is not modelled, and neither is `parseDuty` (parsing timestamp strings
  into dates). Duties arrive with integer millisecond timestamps.
- The rendering is not modelled: `DutyCard`, `App`, the React hooks machinery (`useState`,
  `useCallback`, `useMemo`, re-renders) and the single-column layout toggle.
- `window.alert` is I/O. `ClickUnassigned` returns the alert text instead of showing it.
- `useDutiesButWithMemoization` is not modelled. It is an unused, memoised variant of
  `useDuties` with the same results.
- The date-fns helpers are inlined as integer arithmetic: `addHours`, `subHours` and
  `areIntervalsOverlapping` with its default exclusive test.
- The random duties generated by the tests' mocks are not modelled. The scenario lemmas take
  any duties meeting the tests' constraints.
- `MembershipSet.IdSet`: `useSet` is generic in its member type, and the model fixes it to
  the integer ids it is used with.
- `MembershipSet.IdSet.AsArray`: `Array.from(set)` lists the members in insertion order, and
  the model's `set<int>` keeps no order, so the result is promised only as a duplicate-free
  listing of the members. Nothing in the screen depends on that order.
- `MembershipSet.IdSet.Add`: the source returns the same `Set` object when the member is
  already present, so React skips the re-render. The model keeps only the equal value.
  `MembershipSet.IdSet.Delete` has the same gap.
- `Duties.FindWarning`: it requires well-formed intervals (start not after end), which the
  catalog's data satisfies. What date-fns does with a reversed interval is not modelled.
- `DutySignUp.Assignments.constructor`: it requires every catalog duty to start no later than
  it ends, like `Duties.FindWarning`. What date-fns does with a reversed interval is not
  modelled.
- `DutySignUp.Assignments.constructor`: it requires distinct duty ids. The catalog's ids are
  unique by design, and the model does not cover what the screen does with duplicate ids.
  `WarningsMap` does keep the last-wins rule of `new Map(entries)` for arbitrary input.
- `DutySignUp.Assignments.ClickUnassigned`: it requires the duty to be on the unassigned list,
  because the handler is only attached to the cards of that list.
  `DutySignUp.Assignments.ClickAssigned` likewise requires the duty to be on the assigned list.
