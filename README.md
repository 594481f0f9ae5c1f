# Shopping list: a verified model

This project models the browser shopping-list component of `script.js`. It keeps
one list of item names in local storage under the key `'items'` and renders
them as rows of a list. Users add items through a form, click a row to edit it,
click a row's remove icon to delete it, clear the whole list, and filter the
rows as they type.

The model has four modules:

- `Strings` (`strings.dfy`): the two string operations the filter uses.
  `ToLower` is `toLowerCase` restricted to ASCII letters. `IndexOf` is
  `indexOf`: it returns the first occurrence, or -1 when there is none. It is
  proved against an independent substring predicate, `Contains`.
- `Storage` (`storage.dfy`): the storage slot is either `Absent` or `Stored(items)`.
  `Load` is `getItemsFromStorage`. `Without` is the `filter(i => i !== item)` of
  `removeItemFromStorage`. Lemmas give its exact multiset effect, its
  order preservation and its behaviour when the list has no duplicates.
- `Screen` (`screen.dfy`): the whole page as a value (`Page`). It holds the
  slot, the rows (text, displayed or not, `edit-mode` or not), the input
  field, the `isEditMode` flag and the display of the Clear All button and the
  filter field. There is one function per handler, giving the page the handler
  leaves behind. The lemmas state what each handler promises. They also prove
  that the page stays in sync (`Synced`: the row texts equal the stored list,
  an absent key counting as `[]`) under every handler, as long as no name is
  stored twice.
- `App` (`app.dfy`): the class `ShoppingList`. Its fields are the same state,
  updated in place. Each handler is a method that does what the script does,
  with the script's `forEach` and `while` loops. Each method is proved to leave
  exactly the page that the `Screen` function describes
  (`ensures View() == Screen.X(old(View()))`).

Three behaviours of the script are easy to misread:

- Removing a row deletes that one row from the screen, but it filters every
  equal entry out of storage (`script.js:132`, `script.js:147`). It does not
  remove only the first match. With a name stored twice, the page falls out of
  sync. `Screen.RemoveWithDuplicateLosesSync` exhibits this: after
  removing one of two "Milk" rows, one row remains and storage is empty.
- `isEditMode` is set by `setItemToEdit` and never read or reset. A submit in
  edit mode appends a new item exactly as in add mode
  (`Screen.SubmitIgnoresEditMode`).
- A row added after a filter has been typed is displayed whether or not it
  matches. The filter runs only on input to the filter field.

## Model

| member | source | states |
|---|---|---|
| `Strings.ToLower` | script.js:172-175 | the lower-cased string has the same length, each character is the ASCII lower-case of the original, and no upper-case letter is left |
| `Strings.ToLowerIdempotent` | script.js:172-175 | lower-casing an already lower-cased string changes nothing |
| `Strings.IndexOf` | script.js:177 | the result is -1 or an index where the needle occurs; no earlier index matches; it is not -1 iff the needle is a substring |
| `Strings.EmptyNeedleFoundAtStart` | script.js:177 | the empty query is found at index 0 of every text, so it never yields -1 |
| `Storage.Load` | script.js:88-99 | an absent key reads as the empty list; a stored list reads back as it is |
| `Storage.WriteBackIsInvisible` | script.js:143-151 | writing back the list just read (as `removeItemFromStorage` does even for an absent name or key) changes no later read; a deleted key and a stored empty list read alike |
| `Storage.Without` | script.js:147 | no entry equal to the removed name is left, and the result is no longer than the input |
| `Storage.WithoutMembers` | script.js:147 | a name survives the removal iff it was stored and differs from the removed name |
| `Storage.WithoutCounts` | script.js:147 | as a multiset, the result is the input with the removed name's count set to zero; the length drops by exactly that count |
| `Storage.WithoutKeepsOrder` | script.js:147 | the surviving entries keep their original relative order (the result is a subsequence of the input) |
| `Storage.WithoutAbsent` | script.js:143-151 | removing a name that is not stored gives back the stored list unchanged |
| `Storage.WithoutUnique` | script.js:143-151 | when no name is stored twice, removing the name at position k removes exactly that entry |
| `Screen.CheckUI` | script.js:187-197 | both controls are shown iff a row is rendered; everything else is as before |
| `Screen.Initial` | script.js:1-8 | the script starts with the given storage, no rows, an empty input, edit mode off and both controls hidden (init's `checkUI` on an empty list) |
| `Screen.Display` | script.js:11-17 | one displayed, unmarked row per stored name is appended after the existing rows, in stored order; the Clear All button and the filter field are each shown iff a row is rendered; storage, input and edit mode are kept |
| `Screen.Reload` | script.js:8-17 | after a page load the rows show exactly the stored names, so the page is in sync, with an empty input and edit mode off |
| `Screen.Submit` | script.js:20-40 | empty input leaves the page unchanged; otherwise exactly one displayed, unmarked row with the input's text is appended, the input is appended to storage, the input is cleared; edit mode is never read or changed |
| `Screen.Remove` | script.js:128-151 | declined: unchanged; confirmed: the clicked row is dropped and the others keep their order and flags, storage is written back as the old list with every entry equal to its text filtered out, and both controls are shown iff another row remains |
| `Screen.SetToEdit` | script.js:115-124 | edit mode is on, the input holds the clicked row's text, only that row is marked and every row otherwise keeps its text and display; storage and both controls are kept |
| `Screen.Click` | script.js:103-111 | a click on the remove icon does the removal and then `checkUI` (both controls shown iff a row remains), keeping input and edit mode; any other click marks exactly that row, copies its text to the input and turns edit mode on, keeping every row's text and display, storage and both controls |
| `Screen.Clear` | script.js:155-166 | declined: unchanged; confirmed: no rows, the key deleted (a load reads nothing), both controls hidden, input and edit mode kept |
| `Screen.Matches` | script.js:172-177 | a row text matches iff the lower-cased query is a substring of the lower-cased text |
| `Screen.Filter` | script.js:170-183 | each row is displayed iff its text matches the query; row count, texts, edit marks and the rest of the page are unchanged |
| `Screen.TextsOfRender` | script.js:11-17 | rendering a list of names and reading the row texts back gives that list |
| `Screen.DisplayRendersStorage` | script.js:11-17 | loading on an empty list renders exactly the stored names in order, all displayed and none marked, so the page is in sync |
| `Screen.SubmitEmptyIsNoOp` | script.js:26-29 | submitting an empty input changes neither rows, storage nor anything else |
| `Screen.SubmitAppends` | script.js:20-40 | a non-empty submit appends exactly one row (displayed and unmarked) and one stored entry with the input's text, keeps earlier rows and entries, clears the input and shows the controls |
| `Screen.SubmitIgnoresEditMode` | script.js:20-40 | a submit's effect is the same whatever the edit-mode flag, and it leaves the flag as it was |
| `Screen.SubmitKeepsSynced` | script.js:20-40 | a submit keeps the rows in sync with storage, even when it adds a duplicate |
| `Screen.ReloadAfterSubmit` | script.js:20-40 | after a submit and a page reload, the rows are the previously stored names followed by the submitted one |
| `Screen.RemoveDropsRowAndEveryCopy` | script.js:128-151 | a declined removal changes nothing; a confirmed one removes exactly the clicked row, the others keeping their order, display and edit marks, shows both controls iff another row remains, and leaves no stored entry equal to its text while every other stored entry survives with its count and in its order; storage is unchanged if the text was not stored |
| `Screen.RemoveKeepsSynced` | script.js:128-151 | with no name stored twice, a removal keeps the page in sync and keeps storage free of duplicates |
| `Screen.RemoveWithDuplicateLosesSync` | script.js:132-147 | with "Milk" stored and rendered twice, removing one row leaves one "Milk" row but an empty stored list |
| `Screen.ClearEmptiesEverything` | script.js:155-166 | a declined clear changes nothing; a confirmed one leaves no rows, deletes the key (a later load and a reload give nothing), hides both controls and keeps the input and edit mode |
| `Screen.ClearKeepsSynced` | script.js:155-166 | a clear keeps the page in sync |
| `Screen.FilterShowsIff` | script.js:170-183 | a row is displayed iff the lower-cased query is a substring of its lower-cased text; row count, texts, edit marks, storage and the rest of the page are untouched |
| `Screen.FilterEmptyShowsAll` | script.js:177 | the empty query displays every row |
| `Screen.FilterIgnoresCase` | script.js:172 | a query filters exactly as its lower-cased form does |
| `Screen.MilkAndEggsMatches` | script.js:172-177 | "egg" matches "Eggs" but not "Milk" case-insensitively; "xyz" matches neither |
| `Screen.FilterMilkAndEggs` | script.js:170-183 | on rows "Milk" and "Eggs": "egg" displays only "Eggs", "" displays both, "xyz" displays neither |
| `Screen.FilterKeepsSynced` | script.js:170-183 | a filter keeps the page in sync |
| `Screen.SetToEditMarksOnlyClicked` | script.js:115-124 | edit mode is on, exactly the clicked row is marked (earlier marks cleared), the input holds its text, and texts, display flags and storage are untouched |
| `Screen.SecondSelectionMovesMark` | script.js:118-120 | selecting a second row removes the first row's mark and marks the second |
| `Screen.ClickKeepsSynced` | script.js:103-111 | with no name stored twice, any click on a row (remove or edit) keeps the page in sync |
| `App.ShoppingList.constructor` | script.js:1-8 | the script starts with no rows, an empty input, edit mode off, the given storage and the controls set by `checkUI` |
| `App.ShoppingList.CheckUI` | script.js:187-197 | the new state is the old one with both controls shown iff a row is rendered |
| `App.ShoppingList.AddItemToDOM` | script.js:44-54 | one displayed, unmarked row with the item's text is appended; nothing else changes |
| `App.ShoppingList.AddItemToStorage` | script.js:76-84 | storage holds the old list (empty if absent) with the item appended at the end; nothing else changes |
| `App.ShoppingList.RemoveItemFromStorage` | script.js:143-151 | storage is written back with every entry equal to the item filtered out; nothing else changes |
| `App.ShoppingList.DisplayItems` | script.js:11-17 | the loop appends one row per stored name, in order, then runs `checkUI`, giving `Screen.Display` of the old state |
| `App.ShoppingList.OnAddItemSubmit` | script.js:20-40 | the new state is `Screen.Submit` of the old one |
| `App.ShoppingList.OnClickItem` | script.js:103-111 | the new state is `Screen.Click` of the old one: removal plus `checkUI` on the remove icon, edit selection otherwise |
| `App.ShoppingList.SetItemToEdit` | script.js:115-124 | the loop clears every mark, then the clicked row is marked, the input gets its text and edit mode is on, giving `Screen.SetToEdit` |
| `App.ShoppingList.RemoveItem` | script.js:128-139 | the new state is `Screen.Remove` of the old one: unchanged when declined |
| `App.ShoppingList.ClearItems` | script.js:155-166 | the loop removes the first row until none is left, then the key is deleted, giving `Screen.Clear`: unchanged when declined |
| `App.ShoppingList.FilterItems` | script.js:170-183 | the loop sets each row's display by the lower-cased substring test, giving `Screen.Filter` |

## Left out

- Building the row's DOM element: `createButton`, `createIcon`, CSS class strings and icon markup (script.js:58-72). Only the row's text, display and edit mark are modelled.
- The submit button's label and colour in edit mode (script.js:121-122). This is presentation only.
- The `alert` and `confirm` dialogs. `confirm` is a boolean parameter, and `alert` is a no-change return.
- `JSON.stringify` and `JSON.parse`. They are taken as an identity round trip on the list of names. A corrupt stored value, which the script does not guard against, is outside the model.
- Registering the event listeners in `init` (script.js:201-209). The handlers are modelled, not their wiring to browser events.
- Resolving the click target through `parentElement` (script.js:104-105). `OnClickItem` receives the clicked row's index and whether the click landed on its remove icon. Clicks that land on the list element itself or on the padding of the remove button are not modelled.
- The page's static markup. The model assumes the item list and the input field start empty, as the script's own behaviour expects; if the markup held rows, `displayItems` would append after them (script.js:13-14) and the page would start out of sync. The markup is not part of this model.
- Rows are values in a sequence, not DOM node objects. The identity of a removed `li` node is represented by its position.
- Unicode case mapping. `toLowerCase` is modelled on ASCII letters only.
- UTF-16 indexing. `IndexOf` counts characters, while `indexOf` counts UTF-16 code units, so the two differ in the index returned after a character outside the Basic Multilingual Plane. The filter only compares the result with -1, so it is unaffected.
- The user typing into the input field. The input is part of the state, but no handler in the script writes it except submit and edit selection.
