# Todo list state core, modelled in Dafny

This models the state core of a small client-side todo list. There are two parts:

- **The reducer** (module `TodoReducer`, `todo_reducer.dfy`). It is a pure transition function from the current list of items `Todo(id, content)` and a tagged action to the next list. `CREATE` appends an item. `DELETE` keeps every item whose id differs from the payload id. Any other tag leaves the list as it was. The reducer does no validation. The action is a closed datatype `Create(id, content) | Delete(id) | Other(tag)`. `Decode` models the reducer's `switch` on the `type` string against the constants `"CREATE"` and `"DELETE"`. `Replay` is the list after a run of dispatches.
- **The session** (module `TodoSession`, `todo_session.dfy`). The class `Session` holds the list (`todos`), the id counter (`nextId`, which starts at 0), the pending input (`text`) and a ghost set of every id handed out so far (`issued`). `HandleAdd` is the add button: blank text changes nothing. Otherwise it dispatches `CREATE` with the current counter value, increments the counter and clears the input. `Delete` is an item's delete button. The class invariant `Valid` says three things: ids strictly increase along the list (so they are pairwise distinct), every id is below the counter, and the issued ids are exactly those below the counter. So a deleted id is never minted again.
- **Trimming** (module `Text`, `text.dfy`). This is JavaScript's `String.prototype.trim`, written out over the ECMAScript WhiteSpace and LineTerminator code points. `TrimEmptyIffBlank` proves that `text.trim() === ""` holds exactly when every character is whitespace.

The stored content is the text as typed: the add handler tests the trimmed text but dispatches the untrimmed one.

## Model

| member | source | states |
|---|---|---|
| `Text.AsciiWhitespace` | src/App.tsx:42 | the whitespace set `IsWhitespace` that `trim` strips (ECMAScript WhiteSpace and LineTerminator) contains, within ASCII, exactly the space and tab, line feed, vertical tab, form feed and carriage return |
| `Text.LeadingBlanks` | src/App.tsx:42 | trim's first step: the count it strips from the front covers only whitespace and stops at the first non-whitespace character or at the end |
| `Text.TrailingBlanks` | src/App.tsx:42 | trim's second step: the count it strips from the back covers only whitespace and stops at the last non-whitespace character or at the start |
| `Text.Trim` | src/App.tsx:42 | the trimmed text is no longer than the input and neither starts nor ends with whitespace |
| `Text.TrimDropsOnlyBlanks` | src/App.tsx:42 | the trimmed text is a slice `s[a..b]` of the input whose dropped prefix `s[..a]` and suffix `s[b..]` are all whitespace; with `Trim`'s contract this fixes the result as the input minus its leading and trailing whitespace |
| `Text.TrimEmptyIffBlank` | src/App.tsx:42 | `text.trim()` is empty if and only if every character of `text` is whitespace |
| `TodoReducer.Decode` | src/App.tsx:12-27 | the `type` string selects the branch: the decoded action carries exactly that tag, a tag other than CREATE/DELETE yields the default action, and CREATE/DELETE read their payload fields |
| `TodoReducer.RemoveId` | src/App.tsx:25 | the filter never lengthens the list |
| `TodoReducer.RemoveIdMembers` | src/App.tsx:25 | the filter keeps exactly the items whose id differs from the payload id |
| `TodoReducer.Reduce` | src/App.tsx:20-29 | CREATE yields the old list with `{id, content}` appended and every earlier item in place, whatever the content; DELETE never lengthens the list; any other action returns the list unchanged |
| `TodoReducer.DefaultIsNoop` | src/App.tsx:26-27 | an action whose `type` string is neither CREATE nor DELETE reaches the default branch and returns the list unchanged |
| `TodoReducer.Replay` | src/App.tsx:32 | the list after a run of dispatches, each applied to the previous result; it grows by at most one item per action |
| `TodoReducer.DeleteKeepsOthers` | src/App.tsx:24-25 | after DELETE an item is in the list if and only if it was there before and its id differs from the payload id, so none has that id |
| `TodoReducer.RemoveIdAppend` | src/App.tsx:25 | filtering distributes over concatenation, so the kept items keep their relative order |
| `TodoReducer.RemoveIdAbsent` | src/App.tsx:25 | filtering out an id no item has returns the list unchanged |
| `TodoReducer.DeleteAbsentIsNoop` | src/App.tsx:24-25 | DELETE of an id no item has returns a list equal to the input; it is a no-op, not an error |
| `TodoReducer.RemoveIdUnique` | src/App.tsx:25 | filtering out an id that only the item at index k has yields the list without index k |
| `TodoReducer.DeleteUnique` | src/App.tsx:24-25 | DELETE of an id exactly one item has removes that item only: the result is the list without that index, one shorter |
| `TodoReducer.DeleteIdempotent` | src/App.tsx:24-25 | deleting an id twice gives the same list as deleting it once |
| `TodoReducer.CreateThenDeleteRestores` | src/App.tsx:22-25 | CREATE of an id no item has, followed by DELETE of that id, restores the list exactly |
| `TodoReducer.ReplayCreates` | src/App.tsx:20-32 | a run of CREATE dispatches appends one item per action, in dispatch order, and leaves the earlier items in place |
| `TodoSession.IncreasingIdsAreDistinct` | src/App.tsx:43 | ids that strictly increase along the list are pairwise distinct |
| `TodoSession.CreatePreservesOrder` | src/App.tsx:43 | CREATE with the counter value, which is above every id in the list, keeps ids increasing and below the incremented counter |
| `TodoSession.RemoveIdKeepsAbove` | src/App.tsx:25 | filtering keeps every lower bound on the ids |
| `TodoSession.RemoveIdPreservesOrder` | src/App.tsx:25 | filtering keeps ids strictly increasing |
| `TodoSession.DeletePreservesOrder` | src/App.tsx:49 | DELETE keeps ids increasing and below the counter |
| `TodoSession.Session.constructor` | src/App.tsx:32-34 | a session starts with an empty list, the counter at 0, empty input and no ids issued |
| `TodoSession.Session.SetText` | src/App.tsx:34 | typing replaces the pending text and nothing else |
| `TodoSession.Session.HandleAdd` | src/App.tsx:41-45 | blank text leaves list, counter and text unchanged; otherwise the list is the CREATE of `{counter, text}`, the counter grows by exactly one, the text becomes "", and the minted id was never issued before; the invariant is kept |
| `TodoSession.Session.Delete` | src/App.tsx:49 | the list is the DELETE of the id; if an item has the id, exactly that item is removed; counter, text and issued ids are unchanged; the invariant is kept |
| `TodoSession.AddThenDeleteRestores` | src/App.tsx:41-49 | from a valid session with non-blank text, adding and then deleting the new item restores the list; only the counter has moved on |
| `TodoSession.Scenario` | src/App.tsx:32-49 | from a fresh session, deleting 5, adding "buy milk" and "walk dog" and deleting id 0 leaves `[{1, "walk dog"}]` with the counter at 2 |

## Left out

- React plumbing (`useReducer`, `useRef`, `useState`, the context objects and their providers, rendering) is left out. The list, the counter and the text are plain fields of `Session`, and a dispatch is an assignment of `Reduce`'s result.
- The "used outside provider" errors of `useTodoState` and `useTodoDispatch` (src/App.tsx:61-71) are left out. They depend on React's context resolution, not on the state core.
- The display numbering `index + 1` (src/App.tsx:49) is left out. It is rendering only and never enters the state.
- src/components/Editor.tsx and src/components/TodoItem.tsx are not part of this model. They only forward the input's change event (modelled as `SetText`) and the button clicks (modelled as `HandleAdd` and `Delete`).
- TodoSession.Session.HandleAdd: the counter is an unbounded integer. JavaScript numbers lose integer precision above 2^53, and the model does not capture that.
- The payload is typed `any` in the source. The model assumes a numeric `id` and a string `content`. A missing payload, which would throw in JavaScript, and non-numeric ids such as `NaN` are not modelled.
- Text.IsWhitespace follows the Unicode space separators (category Zs) as of Unicode 15. A JavaScript engine built on another Unicode version may differ.
