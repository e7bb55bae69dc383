# GOTEC Sales Navigator: a Dafny model of the list views

This project models the logic behind the screens of the GOTEC Sales Navigator.

- **Proposals list** (`Propostas`). It covers:
  - the status filter and the keyword search;
  - the sort: dates with invalid ones last, the numeric total value, and text;
  - editing a proposal;
  - the status actions and changing a status;
  - creating a proposal, with its next `PROP-2024-NNN` id;
  - the sync with the server.
- **Customers list** (`Empresas`). It covers the status filter, the search over seven fields, the sort by primary contact, the edit form (including the rule for the primary contact's name), saving, and the sync.
- **Installed-machines list** (`Maquinas`). It covers the search over every field, the sort, and the sync.
- **Dashboard**. It covers:
  - the task list: its filters and its three-level order;
  - adding, toggling, deleting and re-prioritising a task;
  - the overdue test;
  - the five most recent proposals.
- **Knowledge base** (`KnowledgeBase`). It covers the line parser that turns markdown-like text into headings, lists, rules and paragraphs.

All three lists share a sync flow. The user confirms in a modal. The status then goes idle → syncing → success → idle, with a guard against starting a second sync. A simulated fetch compares the old store with the fetched snapshot and reports how many records were added, updated and removed. That flow is the module `Sync`, generic in the record type. The comparison itself is `RecordDiff`, generic in the record and its key.

The modules are:
- `Wrappers`: Option.
- `Text`: the JavaScript string operations the code relies on, on `seq<char>`: the JavaScript whitespace set, `trim`, `startsWith`, `includes`, `split`, `join`, `parseInt(…, 10)`, `padStart`.
- `Collections`: `filter`, a stable sort with the order lemmas, and `map` with a replacing update.
- `ListView`: the status filter "All or one status", the sort-request toggle, and the direction of a comparator.
- `Records`: replacing a record by its key.
- `RecordDiff`: the snapshot comparison.
- `Sync`: the sync flow.
- `Proposals`, `Customers`, `Machines`, `Dashboard`, `KnowledgeBase`: one module per screen.

The environment becomes parameters:
- `toLowerCase` is a function `lower`;
- `localeCompare(…, {numeric: true})` is a comparator `cmp`, assumed to be a total preorder wherever an order is proved;
- `new Date(text)` is a function `parse` that returns a day number, or None for an invalid date;
- `Date.now()` and "today" are integers passed in;
- the fetched snapshot is the argument of the event that fires the fetch timer.

`setTimeout` callbacks are explicit pending timers, and the environment fires them in any order. A JavaScript `Map` built from an array keeps the last record for each key, and the model's index does the same. Two records count as unchanged when their datatype values are equal. That is how `JSON.stringify` compares records whose keys come in the same order. `Array.prototype.sort` is modelled as a stable insertion sort.

## Model

| member | source | states |
|---|---|---|
| RecordDiff.SnapshotDiff | components/Propostas.tsx:98-118 | The added count plus the shared keys gives the new keys, the removed count plus the shared keys gives the old keys, and the updated count is at most the shared keys. |
| RecordDiff.CountChanges | components/Propostas.tsx:98-118 | The two loops over the id maps compute exactly the set-based comparison: added is the number of new ids, removed the number of vanished ids, updated at most the shared ids. |
| RecordDiff.CountNewEntries | components/Propostas.tsx:103-111 | The loop over the new map counts the keys absent from the old map, and separately the shared keys whose records differ. |
| RecordDiff.CountMissingKeys | components/Propostas.tsx:112-116 | The loop over the old map counts the keys absent from the new map. |
| RecordDiff.IndexLastWins | components/Propostas.tsx:99-100 | For a duplicated id, the map keeps the last record with that id. |
| RecordDiff.IndexEntries | components/Propostas.tsx:99-100 | Every record in the id map comes from the array. |
| RecordDiff.IndexKeys | components/Propostas.tsx:99-100 | The map's keys are exactly the ids in the array. |
| RecordDiff.SelfDiffIsZero | components/Propostas.tsx:98-118 | Comparing a store with itself reports no change. |
| RecordDiff.DiffSwap | components/Propostas.tsx:98-118 | Swapping old and new swaps added and removed and keeps updated. |
| RecordDiff.DiffDependsOnIndexOnly | components/Propostas.tsx:99-100 | Two pairs of stores with the same id maps compare the same. |
| RecordDiff.DiffOfFreshPrepend | components/Propostas.tsx:345-362 | Putting a record with a fresh id in front reports exactly one addition. |
| RecordDiff.DiffOfUpdate | components/Propostas.tsx:364-375 | An in-place update adds and removes nothing, and updates at most the entries it touches. |
| Proposals.CompareProposalData | components/Propostas.tsx:98-118 | compareProposalData is exactly the set-based comparison keyed by proposal id. It counts the new ids, the vanished ids and the shared ids whose records differ, and it reports nothing between equal stores. |
| Customers.CompareCustomerData | components/Empresas.tsx:61-81 | compareCustomerData is exactly the set-based comparison keyed by customer id, with the same three counts. |
| Machines.CompareMachineData | components/Maquinas.tsx:56-76 | compareMachineData is exactly the set-based comparison keyed by asset id, with the same three counts. |
| Sync.Reported | components/Propostas.tsx:232-235 | A category is reported exactly when its count is positive, in the order added, updated, removed. |
| Sync.MessageParts | components/Propostas.tsx:232-235 | The message parts are the labelled counts of the reported categories, in order. |
| Sync.SyncMessage | components/Propostas.tsx:237-239 | The "no changes" message is shown exactly when nothing changed; otherwise the parts are joined with ", " after the prefix, with a final period. |
| Sync.DistinctAfterPrefix | components/Propostas.tsx:237-239 | A summary with parts can never equal the "no changes" message. |
| Sync.MessageExample | components/Propostas.tsx:232-235 | Two additions and one removal give the parts "2 adicionada(s)" and "1 removida(s)". |
| Sync.GuardWhileSyncing | components/Propostas.tsx:219 | While syncing, the sync button does nothing, and confirming only closes the modal. |
| Sync.FetchCompletion | components/Propostas.tsx:224-244 | The fetch callback replaces the store with the fetched data, sets success and the sync time, reports the comparison with the store it captured, and schedules the idle timer. |
| Sync.RunAppend | components/Propostas.tsx:218-250 | Running two event sequences one after the other is running their concatenation. |
| Sync.StartRun | components/Propostas.tsx:247-250 | Opening the modal and confirming starts the sync. |
| Sync.FireRun | components/Propostas.tsx:224-244 | Running a single enabled timer event takes one transition. |
| Sync.SyncCycle | components/Propostas.tsx:218-250 | From rest, confirm then fetch ends in success with the comparison toast and a pending idle timer; firing that timer returns to idle. |
| Sync.FetchCountAppend | components/Propostas.tsx:224 | Counting pending fetches distributes over concatenation. |
| Sync.FetchCountRemove | components/Propostas.tsx:224 | Removing a fired timer removes one fetch exactly when it was a fetch. |
| Sync.InitialHasNoFetch | components/Propostas.tsx:182 | At rest, no fetch is pending. |
| Sync.TransitionKeepsOneFetch | components/Propostas.tsx:218-245 | Under the corrected idle rule, every transition keeps this invariant: a fetch is pending exactly while syncing, and at most one. |
| Sync.AtMostOneFetchInFlight | components/Propostas.tsx:218-245 | Under the corrected idle rule, every run from such a state keeps at most one fetch in flight. |
| Sync.StaleIdleTimerAsWritten | components/Propostas.tsx:243 | As written, a second sync started from success is set back to idle by the first sync's idle timer while its fetch is still pending. |
| Sync.GuardBypassedAsWritten | components/Propostas.tsx:219 | As written, that stale idle state lets a third sync pass the guard, so two fetches are in flight. |
| ListView.RequestSort | components/Propostas.tsx:252-258 | The new sort has the requested key, and is descending exactly when the current sort is that key ascending. |
| ListView.RequestSameKeyTwice | components/Empresas.tsx:180-186 | Requesting the same key flips the direction, and requesting it twice restores the sort. |
| ListView.RequestOtherKey | components/Maquinas.tsx:145-151 | A key other than the current one, or no current sort, sorts ascending. |
| ListView.DirectedIsComparator | components/Maquinas.tsx:170 | Negating a comparison for descending order keeps it a total preorder. |
| ListView.SortedDescending | components/Maquinas.tsx:170 | A list sorted by the negated comparison is in descending order of the original. |
| Collections.Filter | components/Propostas.tsx:263 | filter keeps exactly the passing elements, with their multiplicities. |
| Collections.SortSorted | components/Propostas.tsx:286 | The stable sort orders the list by a comparator that is a total preorder on its elements. |
| Collections.Sort | components/Propostas.tsx:286 | The sort is a permutation of its input. |
| Collections.FilterTwice | components/Propostas.tsx:262-283 | Two successive filters are the filter by the conjunction. |
| Collections.UpdateWhere | components/Propostas.tsx:365-369 | map with a conditional update changes exactly the elements that pass the test. |
| Records.ReplaceByKey | components/Propostas.tsx:332-334 | Saving an edit replaces exactly the records with the edited id and keeps the length. |
| Records.ReplaceAbsent | components/Propostas.tsx:332-334 | An edit whose id is not in the store changes nothing. |
| Records.ReplaceIdempotent | components/Empresas.tsx:244-246 | Saving the same edit twice is saving it once. |
| Records.ReplaceKeepsKeys | components/Empresas.tsx:244-246 | Saving keeps every record's id. |
| Records.ReplaceDiff | components/Empresas.tsx:244-246 | Seen by the sync comparison, a save adds and removes nothing and updates at most one id. |
| Records.UpdateByKey | components/Propostas.tsx:365-369 | A change by id applies to exactly the records with that id, and keeps ids. |
| Records.UpdateByKeyDiff | components/Propostas.tsx:365-369 | A change by id adds and removes nothing and updates at most one id. |
| Text.TrimEmptyIffBlank | components/Propostas.tsx:268 | A trimmed string is empty exactly when every character is JavaScript whitespace. |
| Text.IncludesTransitive | components/Empresas.tsx:197-204 | A text that includes a string includes everything that string includes. |
| Text.SplitJoin | components/Propostas.tsx:348 | Joining pieces without the separator and splitting again gives back the pieces. |
| Text.JoinSplit | components/Propostas.tsx:271-278 | Splitting and joining with the same separator gives back the text. |
| Text.SplitAtSeparator | components/Propostas.tsx:348 | Splitting a text at a separator splits the two sides independently. |
| Text.ParseIntOfPaddedDecimal | components/Propostas.tsx:348-353 | parseInt of a number padded with zeros gives the number back. |
| Text.ParseIntOfDigits | components/Propostas.tsx:348 | parseInt of a string of digits is their decimal value. |
| Text.LeadingDigits | components/Propostas.tsx:348 | parseInt reads the longest run of leading digits. |
| Text.ParseIntOfParts | components/Propostas.tsx:348 | parseInt of leading whitespace, an optional sign, a run of digits and a rest that does not continue the run is the value of the digits, negated after a minus. |
| Text.ParseIntWithoutDigits | components/Propostas.tsx:348 | parseInt is NaN when no digit follows the leading whitespace and the optional sign. |
| Text.LeadingDigitsBeforeOther | components/Propostas.tsx:348 | The digit run read at the start of a string stops at the first character that is not a digit. |
| Text.TrimStartBlank | components/Propostas.tsx:348 | Skipping leading whitespace removes exactly the whitespace before the first other character. |
| Text.PadStart | components/Propostas.tsx:353 | padStart keeps a string of the target length or longer, and otherwise pads it to exactly that length with leading fill characters. |
| Proposals.DateOrderIsComparator | components/Propostas.tsx:290-299 | The date comparison, with invalid dates last in both directions, is a total preorder. |
| Proposals.ValueOrderIsComparator | components/Propostas.tsx:302-304 | The numeric comparison of total values is a total preorder. |
| Proposals.ComparatorIsComparator | components/Propostas.tsx:285-309 | The proposal comparator is a total preorder for every key and direction. |
| Proposals.Keywords | components/Propostas.tsx:268 | The keywords are exactly the non-blank pieces of the lowered term split at spaces, and none holds a space. |
| Proposals.Project | components/Propostas.tsx:260-311 | The shown proposals are a permutation of the ones that pass the status filter and contain every keyword; unsorted they keep the store order, sorted they are the stable sort of those. |
| Proposals.ProjectFilters | components/Propostas.tsx:262-283 | The status filter followed by the keyword filter, skipped for an empty term or no keywords, is the single selection filter. |
| Proposals.ProjectSorted | components/Propostas.tsx:285-309 | The shown proposals are ordered by the comparator of the sort configuration. |
| Proposals.DateComparatorAt | components/Propostas.tsx:290-299 | For a date key, the comparator compares the parsed dates. |
| Proposals.InvalidDatesLast | components/Propostas.tsx:294-297 | Under a date sort, in either direction, every proposal after one with an invalid date also has an invalid date. |
| Proposals.NewestFirst | components/Propostas.tsx:176 | Under the initial sort, the proposals with valid dates are newest first. |
| Proposals.BlankTermKeepsAll | components/Propostas.tsx:268-269 | A term made only of blanks gives no keywords, and every proposal matches it. |
| Proposals.SaveEdit | components/Propostas.tsx:328-338 | Saving replaces the proposals with the edited id, and keeps the store when the id is absent. |
| Proposals.ChangeStatus | components/Propostas.tsx:364-375 | The proposals with the id get the new status, and nothing else changes in any proposal. |
| Proposals.ChangeStatusDiff | components/Propostas.tsx:364-375 | Seen by the sync comparison, a status change adds and removes nothing and updates at most one id. |
| Proposals.StatusActions | components/Propostas.tsx:728-730 | "Mark as sent" is offered unless the proposal is sent or accepted, "accept" unless it is accepted, and "reject" unless it is rejected. |
| Proposals.ActionsChangeStatus | components/Propostas.tsx:728-730 | Every offered action changes the status; an accepted proposal can only be rejected. |
| Proposals.HighestFrom | components/Propostas.tsx:347-350 | The reduce returns a value at least its start, at least every parsable id number, and equal to the start or to one of them. |
| Proposals.HighestIdNumber | components/Propostas.tsx:347-350 | The highest id number bounds every parsable id number and is 0 or one of them. |
| Proposals.NextId | components/Propostas.tsx:353 | The new id is "PROP-2024-" followed only by digits, as many as the decimal of the highest number plus one but at least three, and those digits parse to that number. So the number is zero-padded to three digits. |
| Proposals.NextIdNumber | components/Propostas.tsx:348-353 | Reading back the number of a generated id gives the number it was built from. |
| Proposals.IdSegments | components/Propostas.tsx:348-353 | A generated id splits at dashes into "PROP", "2024" and its digits. |
| Proposals.NextIdIsFresh | components/Propostas.tsx:345-362 | The new id differs from every id in the store. |
| Proposals.Create | components/Propostas.tsx:345-362 | Creating puts one draft in front, with today's date, the fresh id and the form's fields, and keeps the rest of the store. |
| Proposals.CreateDiff | components/Propostas.tsx:345-362 | Seen by the sync comparison, creating is exactly one addition. |
| Customers.SearchableTexts | components/Empresas.tsx:197-204 | The search looks in one text for each of the six fields and one for each contact. |
| Customers.MatchesTextIffSomeText | components/Empresas.tsx:197-204 | A customer matches exactly when one of its searched texts includes the lowered term. |
| Customers.NarrowerTermSelectsFewer | components/Empresas.tsx:195-206 | A customer found by a longer term that contains the shorter one is found by the shorter one. |
| Customers.NarrowerTermShowsSubset | components/Empresas.tsx:188-215 | Typing more of the term only removes customers from the list. |
| Customers.EmptyTermKeepsStatus | components/Empresas.tsx:191-195 | With no term and no sort, a customer is shown exactly when it passes the status filter. |
| Customers.Project | components/Empresas.tsx:188-215 | The shown customers are a permutation of those that pass the status filter and the search; unsorted they keep the store order, sorted they are the stable sort of those. |
| Customers.ProjectFilters | components/Empresas.tsx:191-206 | The status filter followed by the search filter is the single selection filter. |
| Customers.ComparatorIsComparator | components/Empresas.tsx:207-214 | The customer comparator is a total preorder for every key and direction. |
| Customers.ComparatorAt | components/Empresas.tsx:209-212 | The comparator compares the texts of the sort key, with the contact key read as the primary contact's name. |
| Customers.ProjectSorted | components/Empresas.tsx:207-214 | The shown customers are ordered by the comparator of the sort configuration. |
| Customers.ProjectDescending | components/Empresas.tsx:212 | Under a descending sort, the key texts are in descending order. |
| Customers.ContactSortByPrimaryName | components/Empresas.tsx:209-210 | Sorting by contacts orders the customers by their first contact's name, or "" when there is none. |
| Customers.PrimaryNamesSorted | components/Empresas.tsx:209-210 | A list sorted on the contact key is ordered by primary contact name. |
| Customers.SetPrimaryContactName | components/Empresas.tsx:227-233 | The first contact gets the new name and keeps its role, or a first contact "Contacto Principal" is added when there is none; the other contacts stay. |
| Customers.EditFormChange | components/Empresas.tsx:223-238 | The changed field reads back the new value, every other form field and the id and status are unchanged, and only the contact field touches the contacts. |
| Customers.EditFormLastWins | components/Empresas.tsx:223-238 | Two changes to one field leave the second value. |
| Customers.EditFormCommutes | components/Empresas.tsx:223-238 | Changes to two fields commute. |
| Customers.EditFormUnchanged | components/Empresas.tsx:418 | Typing the value a field already shows changes nothing. |
| Customers.FormShowsSortedContact | components/Empresas.tsx:418 | The contact field shows the same text that the contact sort compares. |
| Customers.SaveEdit | components/Empresas.tsx:240-250 | Saving replaces the customers with the edited id, and keeps the store when the id is absent. |
| Customers.SaveEditDiff | components/Empresas.tsx:240-250 | Seen by the sync comparison, a save adds and removes nothing and updates at most one id. |
| Customers.EditSessionKeepsIds | components/Empresas.tsx:218-250 | Editing one customer's field and saving keeps every id, and stores the edited customer in its place. |
| Machines.Values | components/Maquinas.tsx:159 | Object.values of a machine gives its ten fields. |
| Machines.ValuesAreFields | components/Maquinas.tsx:159 | Every field is among the values, and every value is a field. |
| Machines.MatchesTextIffSomeField | components/Maquinas.tsx:156-163 | A machine matches exactly when one of its lowered fields includes the lowered term. |
| Machines.NarrowerTermSelectsFewer | components/Maquinas.tsx:156-163 | A machine found by a longer term that contains the shorter one is found by the shorter one. |
| Machines.NarrowerTermShowsSubset | components/Maquinas.tsx:153-173 | Typing more of the term only removes machines from the list. |
| Machines.FoundByAssetId | components/Maquinas.tsx:156-163 | Searching for a machine's lowered asset id always shows that machine. |
| Machines.Project | components/Maquinas.tsx:153-173 | The shown machines are a permutation of those that match the search, and all machines when there is no term; unsorted they keep the store order. |
| Machines.SearchFilter | components/Maquinas.tsx:156-163 | The search, skipped for an empty term, is the selection filter. |
| Machines.ComparatorIsComparator | components/Maquinas.tsx:165-172 | The machine comparator is a total preorder for every key and direction. |
| Machines.ProjectSorted | components/Maquinas.tsx:165-172 | Ascending, the key texts are in ascending order; descending, in descending order. |
| Machines.DirectedOrder | components/Maquinas.tsx:170 | Order by the directed comparison is ascending or descending order of the key text. |
| Dashboard.Rank | components/Dashboard.tsx:18-22 | The priority order ranks high, medium and low as 1, 2 and 3. |
| Dashboard.TaskOrderPair | components/Dashboard.tsx:73-85 | A non-positive comparison puts incomplete before completed, earlier due dates first among incomplete tasks, and the higher priority first on a tie. |
| Dashboard.TaskOrderAntisymmetric | components/Dashboard.tsx:73-85 | For any two tasks, including ones whose due date does not parse, a comparison is negative exactly when the reverse comparison is positive. A NaN difference counts as a tie in both directions. |
| Dashboard.TaskOrderTransitive | components/Dashboard.tsx:73-85 | Among tasks that are completed, undated, or dated with a date that parses, the task order is transitive. |
| Dashboard.TaskOrderConsistent | components/Dashboard.tsx:73-85 | The task order is a total preorder on every list of tasks that are completed, undated, or dated with a date that parses. |
| Dashboard.TaskView | components/Dashboard.tsx:60-86 | The shown tasks are a permutation of those that pass the priority and completion filters, in the order of the stable sort. |
| Dashboard.TaskFilters | components/Dashboard.tsx:63-71 | The priority filter followed by the completion filter is the single selection filter. |
| Dashboard.TaskViewOrdered | components/Dashboard.tsx:73-85 | When every incomplete task's due date, if it has one, parses, the shown tasks have incomplete before completed, incomplete tasks by due date with undated ones last, and ties by priority. |
| Dashboard.PlaceableSorted | components/Dashboard.tsx:73-85 | A list sorted by the task order has the three-level order. |
| Dashboard.AddTask | components/Dashboard.tsx:96-109 | A blank text adds nothing; otherwise one incomplete medium-priority task is appended, with the given id, and the due date only when one was entered. |
| Dashboard.AddedTaskUndated | components/Dashboard.tsx:101-105 | A task added without a due date sorts as due at infinity. |
| Dashboard.Toggle | components/Dashboard.tsx:111-115 | Toggling flips the completion of the tasks with the id and changes nothing else. |
| Dashboard.ToggleTwice | components/Dashboard.tsx:111-115 | Toggling twice restores the tasks. |
| Dashboard.Delete | components/Dashboard.tsx:117-119 | Deleting removes every task with the id and keeps every other task with its multiplicity. |
| Dashboard.DeleteKeepsOrder | components/Dashboard.tsx:117-119 | Deleting from a concatenation deletes from each part. |
| Dashboard.DeleteAbsentAndTwice | components/Dashboard.tsx:117-119 | Deleting an absent id changes nothing, and deleting twice is deleting once. |
| Dashboard.NextPriority | components/Dashboard.tsx:124-126 | The next priority differs from the current one and goes one rank down, from low back to high. |
| Dashboard.PriorityCycle | components/Dashboard.tsx:124-126 | Three priority changes return to the start. |
| Dashboard.CyclePriority | components/Dashboard.tsx:121-131 | Only the tasks with the id get the next priority. |
| Dashboard.CyclePriorityThrice | components/Dashboard.tsx:121-131 | Three clicks on a task's priority restore the tasks. |
| Dashboard.IsOverdue | components/Dashboard.tsx:133-142 | A task is overdue exactly when it has a due date that parses, is incomplete, and its due day is before today. |
| Dashboard.OverdueAfterDueDay | components/Dashboard.tsx:133-142 | A task is not overdue on its due day, and on every later day it is overdue exactly while incomplete. |
| Dashboard.RecentProposals | components/Dashboard.tsx:88-94 | The recent proposals are the first min(5, n) of the status-filtered proposals sorted newest first, all passing the filter. |
| Dashboard.RecentFilter | components/Dashboard.tsx:90-92 | The status filter, skipped for "All", is the selection filter. |
| Dashboard.RecentOrderConsistent | components/Dashboard.tsx:93 | Among proposals whose dates parse, the newest-first comparison is a total preorder. |
| Dashboard.RecentNewestFirst | components/Dashboard.tsx:93 | When the dates parse, the recent proposals are newest first. |
| Dashboard.DatesDescending | components/Dashboard.tsx:93 | A prefix of a list sorted newest first is newest first. |
| KnowledgeBase.NumberedPrefixLength | components/KnowledgeBase.tsx:39-44 | A numbered marker is one or more digits, a dot and one whitespace character. |
| KnowledgeBase.HeadingLevel | components/KnowledgeBase.tsx:24-32 | The heading level is 1, 2 or 3 for "# ", "## " and "### ", and 0 otherwise. |
| KnowledgeBase.Classify | components/KnowledgeBase.tsx:23-52 | A heading's text follows its marker, an item's text is the rest of the line after its marker, and a paragraph keeps the whole line. |
| KnowledgeBase.ClassifyBlank | components/KnowledgeBase.tsx:48-51 | A line produces nothing exactly when it is blank. |
| KnowledgeBase.ClassifyHeadings | components/KnowledgeBase.tsx:24-32 | "# ", "## " and "### " before a text give headings of levels 1 to 3 with that text. |
| KnowledgeBase.ClassifyBullets | components/KnowledgeBase.tsx:33-38 | "- " and "• " before a text give a bullet item with that text. |
| KnowledgeBase.ClassifyNumbered | components/KnowledgeBase.tsx:39-44 | A number, a dot and a space before a text give a numbered item with that text. |
| KnowledgeBase.LinesAtNewlines | components/KnowledgeBase.tsx:6 | A text without a newline is one line, and a newline divides a text into the lines before it and the lines after it. |
| KnowledgeBase.LinesAroundLine | components/KnowledgeBase.tsx:6 | A line between two newlines is classified on its own, between the lines before and after it. |
| KnowledgeBase.EndList | components/KnowledgeBase.tsx:11-21 | endList keeps the blocks emitted so far in front, adds at most one block after them, and leaves nothing open. |
| KnowledgeBase.EndListMovesItems | components/KnowledgeBase.tsx:11-21 | endList moves the open items into the emitted lists and leaves the other emitted blocks as they were. |
| KnowledgeBase.Parse | components/KnowledgeBase.tsx:5-54 | No emitted list is empty, the list items are the item lines in order, the other blocks are the heading, rule and paragraph lines in order, and no two adjacent lists have the same kind. Where each list ends is stated by KnowledgeBase.ClosingLineSplits and KnowledgeBase.ParseAtClosingLine for heading, rule and paragraph lines, and by KnowledgeBase.KindSwitchSplits for an item of the other kind. KnowledgeBase.ItemsOfOneKindParse gives each list its kind and items. |
| KnowledgeBase.ParseLoop | components/KnowledgeBase.tsx:5-54 | The loop with mutable list state computes the same blocks as the pass. |
| KnowledgeBase.RunInvariant | components/KnowledgeBase.tsx:23-52 | After every line, the state is consistent with the lines seen. |
| KnowledgeBase.StepInvariant | components/KnowledgeBase.tsx:23-52 | One line keeps the state consistent. |
| KnowledgeBase.EndListInvariant | components/KnowledgeBase.tsx:11-21 | Closing the list keeps the state consistent. |
| KnowledgeBase.BlankLinesIgnored | components/KnowledgeBase.tsx:48-51 | Removing the blank lines gives the same result. |
| KnowledgeBase.ClosingLines | components/KnowledgeBase.tsx:24-51 | A heading, rule or paragraph closes the open list and emits it when it has items. |
| KnowledgeBase.ItemsOfOneKindGather | components/KnowledgeBase.tsx:33-44 | Consecutive items of one kind go into one open list. |
| KnowledgeBase.StepShifted | components/KnowledgeBase.tsx:23-52 | The loop body only appends blocks, so the blocks emitted before a line do not affect what it does. |
| KnowledgeBase.RunAfterClosing | components/KnowledgeBase.tsx:23-52 | After a heading, rule or paragraph line, the pass goes on as if it started afresh, behind the blocks emitted so far. |
| KnowledgeBase.ClosingLineSplits | components/KnowledgeBase.tsx:23-53 | A heading, rule or paragraph line divides the parse into the blocks before it, its own block and the blocks after it, so no list runs across it. |
| KnowledgeBase.ParseAtClosingLine | components/KnowledgeBase.tsx:5-54 | On the text: a heading, rule or paragraph line between two newlines divides the parsed text the same way. |
| KnowledgeBase.RunShiftedTail | components/KnowledgeBase.tsx:23-52 | Once the pass over some lines equals a fresh pass behind earlier blocks, it stays so whatever lines follow. |
| KnowledgeBase.RunAfterSwitch | components/KnowledgeBase.tsx:33-44 | An item whose kind is not the open list's starts the pass afresh, behind the blocks emitted so far. |
| KnowledgeBase.KindSwitchSplits | components/KnowledgeBase.tsx:33-53 | An item whose kind is not the open list's closes that list: the parse is the blocks of the lines before it, then the blocks of the lines from it on. |
| KnowledgeBase.SwitchAfterItems | components/KnowledgeBase.tsx:33-53 | After items of one kind, an item of the other kind leaves their single list in front of the blocks from that item on. |
| KnowledgeBase.RunOfOneKind | components/KnowledgeBase.tsx:33-44 | Item lines of one kind alone leave one open list of all their texts. |
| KnowledgeBase.ItemsOfOneKindParse | components/KnowledgeBase.tsx:33-53 | Item lines of one kind alone parse to a single list of their texts. |
| KnowledgeBase.ClosingBetweenItems | components/KnowledgeBase.tsx:23-53 | Two runs of items around a heading, rule or paragraph parse to two lists around its block, even when both runs have the same kind. |
| KnowledgeBase.ParseExample | components/KnowledgeBase.tsx:5-54 | A heading, two bullets, a blank line, a bullet and a numbered item give a heading, one bullet list of three items and a numbered list. |

## Left out

- The ROI calculator, the AI services and summaries, the planning views and the app shell are not part of this model.
- The rendered JSX and its styling are not modelled: labels, colours, icons, modals and the rendered blocks' keys.
- Exporting to CSV, generating PDFs, printing, and the mailto links of handleSendEmail are not modelled. Neither is that function's customer lookup, because it only builds a link.
- The summary renderer at Propostas.tsx:147-170 is not modelled. It only formats AI output.
- Toast auto-dismiss after 5000 ms is a `DismissToast` event with no time attached. The 1500 ms and 3000 ms delays are pending timers with no durations, so the model does not constrain the order in which they fire.
- The success and info toasts of edits, creation and status changes are not modelled. They change no data.
- The generic edit-form handlers of proposals and of new proposals (Propostas.tsx:322-326 and 340-343) are not modelled field by field. The `parseFloat(value) \|\| 0` coercion of totalValue is left out, because it is floating point.
- totalValue is a `real`, so JavaScript number rounding is not modelled.
- The proposal overdue badge at Propostas.tsx:315 is not modelled. It reads the real clock.
- Date parsing is a parameter. The model does not cover timezones, the UTC parsing of ISO dates against `setHours` in local time, or `toISOString` for the creation date, which is passed in as `today`.
- `localeCompare` and `toLowerCase` are parameters. The model does not cover locale collation or numeric collation.
- `Array.prototype.sort` is assumed stable. Dashboard.tsx:73 and 93 sort in place, and at 73 that can reorder the component's own task state. Empresas.tsx:228-230 writes the shallow-copied first contact in place. All three are modelled as pure functions of their inputs.
- Dashboard.TaskViewOrdered: requires every incomplete task's due date, if it has one, to parse. With an invalid date, the source's comparator returns NaN, which sort treats as equal, and that relation is not transitive. Without the requirement, only the permutation and filter facts of Dashboard.TaskView hold.
- Dashboard.TaskOrderTransitive: requires the three tasks to be completed, undated, or dated with a date that parses, for the same reason.
- Dashboard.RecentNewestFirst: requires every proposal date to parse, because an invalid date makes the difference NaN.
- Proposals.NextIdIsFresh: holds for unbounded integers only. In the source, `parseInt` and `+ 1` work on doubles. Once an id number reaches 2^53, adding one can round back to the same number and repeat an existing id. From 10^21 up, `String` writes the number in exponent form. Proposals.HighestFrom and Proposals.NextId use unbounded integers in the same way.
- `JSON.stringify` depends on the order of an object's keys, and the model compares records as values. A proposal created at Propostas.tsx:352-357 lists id, date and status before the form's fields, which is not the order of the mock and fetched records. If a server returned such a record with unchanged fields, the source would count it as updated, while RecordDiff.SnapshotDiff counts nothing.
- The mock stores and the `getUpdated…Data` snapshots are not modelled as data. The store and the fetched snapshot are parameters. Only the new-proposal form defaults (`Proposals.EmptyForm`, Propostas.tsx:88-96) are written out.

## Findings

| source | as written | input that shows it | evidently intended | confidence | as-written member | corrected member |
|---|---|---|---|---|---|---|
| components/Propostas.tsx:243 (also Empresas.tsx:171, Maquinas.tsx:136) | The 3000 ms callback that sets the status to idle is never cancelled. The sync button is enabled in the success state, so a second sync can start before that callback runs. When it runs, it sets idle while the second fetch is still pending, and the guard at line 219 then lets a third sync start. | Sync, confirm, the fetch completes; sync and confirm again; the first idle timer fires; sync and confirm a third time. Two fetch timers are now pending. | The return to idle only leaves the success state, so a fetch is pending exactly while syncing and never more than one is. | not executed | Sync.GuardBypassedAsWritten | Sync.AtMostOneFetchInFlight |
