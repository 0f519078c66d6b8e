# Shopping list: a verified model of the page logic

The shopping list is one browser script, `script.js`. It keeps a list of item
names in local storage under the key `"items"` and shows one `li` row per
item. Its handlers add, edit, remove, clear and filter items. This project
models that logic in Dafny and proves what the handlers do to the rendered
rows, to the edit-mode state and to the stored list.

- `Text` (text.dfy) covers the string operations the filter uses.
  `Lower` is `toLowerCase` on ASCII letters. `IndexOf` is `indexOf`: it
  returns the least position of an occurrence, or -1.
- `Lists` (lists.dfy) covers the array operations on the stored list.
  `Includes` is `includes`. `Without` is `filter(item => item !== name)`.
  The lemmas say that `Without` deletes every copy of the name, keeps
  everything else, and keeps the survivors in their original order. They also
  say when a list stays free of duplicates.
- `Storage` (storage.dfy) is the class `ItemStore`. Its field `entries` is
  local storage as a map from keys to lists. Its members are the four
  storage helpers of the script and the removal of the key done by
  `clearItems`.
- `ShoppingList` (shopping_list.dfy) is the class `Page`. Its fields are the
  rows (text, `edit-mode` class, shown or hidden), the `editing` flag, the
  item input's value and whether the clear and filter controls are shown.
  It also holds the store. Each handler is a method whose `ensures` gives the
  whole new state. `Valid()` is the invariant every handler keeps: at most
  one row is marked, and while `editing` is set some row is marked.
  `Mirrored()` says the row texts equal the stored list, and `Unique()` says
  the stored list has no duplicates. The handlers state when they keep these
  two.
- `Scenarios` (scenarios.dfy) holds methods that call the handlers on
  concrete input, starting from empty storage, and Dafny proves their
  asserts. They cover adding, editing "Milk" into "Oat Milk",
  clear-all, adding a duplicate, filtering with "MI", and an edit that makes
  a duplicate which a later removal then takes out of storage.

The user typing into the item input is written as an assignment to
`page.input`. A click on a row's remove icon is `RemoveItem(i, confirmed)`,
where `confirmed` is the answer to the `confirm` dialog. A click anywhere
else on row `i` is `SetItemToEdit(i)`. The two `alert`s become the outcomes
`EmptyItem` and `AlreadyExists(item)` of `OnAddItemSubmit`, and the state is
left unchanged.

Behaviour of `script.js` that the model keeps as written:
- `resetUI` counts every `li`, hidden ones included (script.js:30-32), so
  the clear and filter controls are shown whenever there is at least one
  row, even if the filter hides them all.
- Removing any row while editing leaves edit mode, because `removeItem`
  always calls `resetUI` (script.js:184). But `resetUI` does not take the
  `edit-mode` class off the row being edited (script.js:28-44), so that row
  stays marked while `editing` is false. `Valid()` allows this state. The
  next `setItemToEdit` clears the mark (script.js:100-102).
- `JSON.parse` throws on malformed stored text (script.js:145). This model
  has no JSON layer (see below).

## Model

| member | source | states |
|---|---|---|
| `Text.LowerChar` | script.js:121 | an upper-case ASCII letter becomes the lower-case letter at the same place in the alphabet, every other character is kept, and the result is never an upper-case ASCII letter |
| `Text.Lower` | script.js:121-125 | lower-casing keeps the length and lower-cases each character in its place, as `LowerChar` states |
| `Text.LowerIdempotent` | script.js:121-125 | lower-casing twice is the same as lower-casing once |
| `Text.IndexFrom` | script.js:127 | a search from position k returns -1 exactly when nothing occurs at or after k; otherwise it returns the first occurrence at or after k |
| `Text.IndexOf` | script.js:127 | `indexOf` is not -1 exactly when the needle is a substring, and then it is the least position where the needle occurs |
| `Text.IndexOfEmpty` | script.js:127 | the empty string is found at position 0 of every string |
| `Text.ContainsLower` | script.js:125-127 | an occurrence of the needle is still an occurrence after both sides are lower-cased |
| `Lists.Includes` | script.js:154 | `includes` is true exactly when the item is in the list |
| `Lists.Without` | script.js:192 | the filtered list contains no copy of the name and is no longer than the input |
| `Lists.WithoutMembers` | script.js:192 | a value is in the filtered list exactly when it is in the input and differs from the name |
| `Lists.WithoutAppend` | script.js:192 | filtering works element by element: filtering a concatenation is the concatenation of the filtered parts |
| `Lists.WithoutIsSubsequence` | script.js:192 | the filtered list is a subsequence of the input, so the survivors keep their relative order |
| `Lists.WithoutCount` | script.js:192 | filtering leaves zero copies of the name and the same number of copies of every other value |
| `Lists.WithoutAbsent` | script.js:192 | filtering out a name that is not in the list returns the list unchanged |
| `Lists.WithoutUnique` | script.js:192 | in a list without duplicates, filtering out the entry at position i deletes exactly that position |
| `Lists.NoDupWithout` | script.js:192 | filtering keeps a list free of duplicates |
| `Lists.NoDupAppend` | script.js:74-81 | appending to a list without duplicates keeps it so exactly when the new entry was not already present |
| `Storage.ItemStore.GetItemsFromStorage` | script.js:139-149 | the stored list is empty when the `"items"` key is absent, and is the value under the key otherwise |
| `Storage.ItemStore.CheckIfItemExists` | script.js:152-155 | true exactly when some entry of the stored list equals the item (exact, case-sensitive) |
| `Storage.ItemStore.AddItemToStorage` | script.js:170-176 | the item is appended at the end, earlier entries and their order are unchanged, only the `"items"` key is written, and the item then exists |
| `Storage.ItemStore.RemoveItemFromStorage` | script.js:189-194 | the stored list becomes the filtered list (every equal entry dropped, order kept), the key is written even if it was absent, and the name then does not exist |
| `Storage.ItemStore.RemoveItems` | script.js:114 | the `"items"` key is deleted, every other key is kept, and loading then gives the empty list |
| `ShoppingList.RemoveAt` | script.js:182 | removing row i keeps the rows before i and shifts the rows after i down by one |
| `ShoppingList.MarkedIndex` | script.js:69 | `querySelector(".edit-mode")` gives -1 (null) exactly when no row is marked, and otherwise gives the first marked row |
| `ShoppingList.ItemMatches` | script.js:125-127 | a row passes the filter exactly when its lower-cased text contains the lower-cased filter text |
| `ShoppingList.EmptyFilterMatchesAll` | script.js:120-133 | the empty filter shows every row |
| `ShoppingList.MatchIgnoresCase` | script.js:121-125 | the filter result does not change when the filter text or the row text is lower-cased first |
| `ShoppingList.SubstringMatches` | script.js:125-127 | a row whose text contains the filter text verbatim is shown |
| `ShoppingList.RemoveRowKeepsMirror` | script.js:180-194 | if the rows mirror a stored list without duplicates, removing row i and every stored copy of its text keeps the mirror and keeps the list free of duplicates |
| `ShoppingList.RemoveDuplicateRowDesyncs` | script.js:180-194 | if two rows have the same text, removing one deletes every stored copy, so the other row stays on the page but its text is no longer stored |
| `ShoppingList.EditPathDuplicates` | script.js:68-81 | the edit path keeps the stored list free of duplicates exactly when the new text is the edited text or was not stored before; otherwise it creates a duplicate |
| `ShoppingList.Page.Init` | script.js:14-24 | the page starts with no rows, not editing, an empty input and the controls hidden, and `Valid()` holds |
| `ShoppingList.Page.ResetUI` | script.js:28-44 | the input is cleared, editing is off, the rows are untouched, and the controls are shown exactly when there is at least one row |
| `ShoppingList.Page.DisplayItems` | script.js:49-53 | one new row per stored item is appended in stored order, then the UI is reset; starting from no rows, the rows then mirror storage |
| `ShoppingList.Page.AddItemToDOM` | script.js:158-167 | one new unmarked, shown row is appended at the end; marks on the other rows are unchanged |
| `ShoppingList.Page.RemoveEditedItem` | script.js:68-72 | the marked row exists and is removed, so no row stays marked; every stored copy of its text is dropped and only the `"items"` key is written; the mirror and no-duplicates facts are kept |
| `ShoppingList.Page.OnAddItemSubmit` | script.js:57-85 | empty input is refused, and a stored name is refused outside edit mode; both leave the page and storage unchanged. Otherwise: outside edit mode the text becomes the last row and the last stored entry; in edit mode the marked row and every stored copy of its text are removed before the text is appended, and no mark is left. Only the `"items"` key of storage is written. Then editing is off, the input is empty, and the mirror and no-duplicates facts hold as stated above |
| `ShoppingList.Page.SetItemToEdit` | script.js:98-107 | exactly the clicked row is marked, editing is on, the input holds the row's text, and nothing else changes |
| `ShoppingList.Page.RemoveItem` | script.js:180-186 | when declined nothing changes; when confirmed the row is removed, every stored copy of its text is dropped, only the `"items"` key of storage is written, and the UI is reset; the mirror and no-duplicates facts are kept |
| `ShoppingList.Page.ClearItems` | script.js:110-116 | the rows are removed one by one from the front until none are left, the `"items"` key is deleted and other keys are kept, and the UI is reset with the controls hidden |
| `ShoppingList.Page.FilterItems` | script.js:120-133 | each row is shown exactly when its lower-cased text contains the lower-cased filter text; texts, marks, the editing flag, the input and the controls are unchanged |

## Left out

- JSON: each key holds the list that its JSON text encodes. `JSON.stringify`, `JSON.parse` and its exception on malformed text are not modelled.
- Unicode case mapping: `Text.Lower` maps only the ASCII letters `A`-`Z`, while `toLowerCase` maps all of Unicode.
- Event wiring in `init` and event-target resolution in `onClickItem`: the two outcomes of a click are the separate methods `RemoveItem` and `SetItemToEdit`. A click on the remove button itself, outside its icon, makes the browser pass the button to `setItemToEdit`. That case is not modelled.
- `alert` and `confirm`: an alert is an outcome of `OnAddItemSubmit` that leaves the state unchanged, and the user's answer to `confirm` is a parameter of `RemoveItem`.
- Presentation: the submit button's label and colour, the `display` strings (only shown or hidden is kept), and the construction of the remove button and its icon (`createButton`, `createIcon`).
- The page markup is assumed to start with no item rows, and `document.querySelectorAll("li")` in `filterItems` is assumed to find only the item rows. A row's `textContent` is its item text, because the remove button holds no text.
- The value of the filter input is not kept. `FilterItems` takes the filter text as a parameter, and adding an item later does not filter again: the new row is shown.
