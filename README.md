# Student roster store

A model of the record store inside the Student Registration System's `script.js`,
a browser page that keeps a list of students (name, student id, email, contact).
The page holds the list in a module-level array `students`. A submit handler
trims the four form fields, checks them in a fixed order and either appends the
record (add mode) or overwrites the row being edited (edit mode, chosen by a
hidden `editIndex` field). `deleteStudent` splices a row out. `editStudent` puts
the form into edit mode on a row. Every render writes the whole list to local
storage, and page load reads it back.

Modules:

- `Wrappers` (`wrappers.dfy`): `Option` and `Result`.
- `Text` (`text.dfy`): `String.prototype.trim` over the ECMAScript whitespace
  and line-terminator code points. Also a matcher for the anchored patterns
  `^[class]{n,}$` used by the checks. Each comes with its character-by-character
  meaning.
- `Validation` (`validation.dfy`): the `Student` record, the four error kinds
  and `Validate`, the trim-then-check step of the submit handler.
- `Roster` (`roster.dfy`): the class `RosterStore`. Its fields are `students`,
  `editIndex` and `stored` (the copy in local storage). Its methods are the
  load, the submit, edit and delete handlers, and the storage write.

## Model

| member | source | states |
|---|---|---|
| `Text.TrimStart` | script.js:63-66 | the result is no longer than the input and does not start with whitespace |
| `Text.TrimEnd` | script.js:63-66 | the result is no longer than the input and does not end with whitespace |
| `Text.TrimStartIsSuffix` | script.js:63-66 | removing leading whitespace keeps a suffix of the input, and every character dropped is whitespace |
| `Text.TrimEndIsPrefix` | script.js:63-66 | removing trailing whitespace keeps a prefix of the input, and every character dropped is whitespace |
| `Text.Trim` | script.js:63-66 | the trimmed value has no leading or trailing whitespace and is no longer than the input |
| `Text.TrimIsSlice` | script.js:63-66 | the trimmed value is a contiguous slice of the input, and only whitespace was removed at either end |
| `Text.TrimCharacterized` | script.js:63-66 | trimming any whitespace + m + whitespace gives back m exactly, when m has no outer whitespace |
| `Text.TrimIdempotent` | script.js:63-66 | trimming an already trimmed value changes nothing |
| `Text.Matches` | script.js:82-88 | the regex matcher accepts exactly the strings of at least `min` characters that all lie in the pattern's class |
| `Validation.FirstFailure` | script.js:76-88 | on trimmed values: no failure iff the record is valid (all fields non-empty, name letters or spaces, id digits, contact at least 10 digits, email unchecked). Otherwise the failure is the first check the record fails, in the order empty field, name, id, contact |
| `Validation.Validate` | script.js:63-88 | a submission is accepted iff the trimmed record is valid, and acceptance yields the trimmed record. A rejection reports the first check, in the handler's order, that the trimmed values fail |
| `Validation.AcceptedRecordIsTrimmed` | script.js:63-94 | an accepted record holds exactly the trimmed inputs; no field has leading or trailing whitespace; the name neither starts nor ends with a space |
| `Validation.SurroundingWhitespaceIgnored` | script.js:63-88 | wrapping each field of a valid, trimmed record in any whitespace, chosen independently before and after every field, still gives that same record |
| `Validation.AcceptedRecordRevalidates` | script.js:63-94 | submitting an accepted record's own fields again is accepted and gives the same record |
| `Validation.DigitInNameRejected` | script.js:76-82 | with the other fields filled in, a digit anywhere in the typed name is reported as an invalid name |
| `Validation.ShortContactRejected` | script.js:76-88 | with name, id and email acceptable, a contact that is non-blank but shorter than ten characters once trimmed is reported as an invalid contact |
| `Roster.Removed` | script.js:124 | `splice(i, 1)`: length drops by one, elements before `i` unchanged, new element `j >= i` is old element `j + 1` |
| `Roster.EditTargetAfterDelete` | script.js:122-128 | corrected delete: add mode stays add mode; for any list, the adjusted edit index is cleared exactly when the deleted row is the one being edited, and otherwise designates, in the shortened list, the same record it designated before |
| `Roster.EditTargetFollowsRecord` | script.js:122-128 | after a delete, the adjusted edit index designates the same record that was opened for editing, and is cleared exactly when that record was deleted |
| `Roster.RosterStore.constructor` | script.js:13 | page load: the list is the stored one, or empty when nothing is stored; add mode; storage equals memory after the first render |
| `Roster.RosterStore.Persist` | script.js:47 | the render's storage write: the stored copy becomes the in-memory list |
| `Roster.RosterStore.Reload` | script.js:13 | a page reload returns the last persisted list; when storage was in sync, the list is unchanged |
| `Roster.RosterStore.Submit` | script.js:55-115 | a rejection returns the first failing check and leaves list, storage and mode unchanged. In add mode an acceptance appends the trimmed record. In edit mode it replaces only the edited row and returns to add mode. After an acceptance storage equals memory. Validity of every row is preserved |
| `Roster.RosterStore.Edit` | script.js:135-148 | returns the row to load into the form and sets edit mode on index `i`; list and storage untouched |
| `Roster.RosterStore.DeleteAsWritten` | script.js:122-128 | as written: removes exactly row `i` (shifting later rows), storage equals memory, edit index left as it was |
| `Roster.RosterStore.Delete` | script.js:122-128 | corrected: removes exactly row `i`, storage equals memory, and the edit index follows the record being edited |
| `Roster.StaleEditIndexOverwrites` | script.js:99-128 | as written: load [a, b, c], edit row 1, delete row 0, submit an acceptable form: the list becomes [b, new record], so c is overwritten and b, the row opened for editing, survives |
| `Roster.StaleEditIndexPastEnd` | script.js:122-148 | as written: load [a, b, c], edit row 2, delete row 0 twice: the edit index no longer designates any row |

## Findings

| source | as written | input that shows it | evidently intended | confidence | as-written member | corrected member |
|---|---|---|---|---|---|---|
| script.js:122-128 | `deleteStudent` splices the list but leaves the hidden `editIndex` as it was | rows [A, B, C]; Edit on row 1 (edit mode on B); delete row 0; submit an acceptable form (the name retyped, since `editStudent` does not refill the name field): `students[1]` is C, so C is overwritten and B survives. With Edit on row 2 and two deletes of row 0, the index points past the end of the list | the pending edit keeps designating the record opened for editing, and is dropped when that record is deleted | not executed; high that the index goes stale, medium on which repair was intended | `Roster.RosterStore.DeleteAsWritten`, `Roster.StaleEditIndexOverwrites`, `Roster.StaleEditIndexPastEnd` | `Roster.RosterStore.Delete`, `Roster.EditTargetAfterDelete`, `Roster.EditTargetFollowsRecord` |

## Left out

- Roster.RosterStore.Submit: requires that in edit mode the edit index designates a row. The source does not check this. It holds after `Edit` and after the corrected `Delete`, but `DeleteAsWritten` can break it (see Findings). Writing past the end of a JavaScript array (which leaves holes) is not modelled.
- Roster.RosterStore.Edit, Roster.RosterStore.Delete: take `i < |students|` as a precondition. Indices come only from rendered rows, and the out-of-range behaviour of JavaScript arrays is not modelled.
- Roster.RosterStore.constructor: takes the stored entry as a parameter, `None` when the key is missing (or holds a JSON value that is falsy). Malformed stored text makes `JSON.parse` throw at load; that is not modelled and does not fall back to the empty list. The stored records are not validated on load, so the rows are valid only if the stored ones were; `Submit` and `Delete` preserve validity.
- Local storage and JSON serialisation are modelled as a stored copy of the list (`stored`); serialisation is taken to be lossless.
- Roster.RosterStore.Edit: returns the row whose values `editStudent` copies into the form. The copy itself is not modelled. As written, script.js:140 assigns to the global `name`, which in a browser is the string `window.name`, not the name input, so the name field is not refilled; submitting without retyping the name then reports an empty field.
- HTML row building in `render`, event wiring, `preventDefault`, form reset, copying field values into the form in `editStudent` and `alert` calls are DOM output and not modelled. Only the error kind is kept.
- The typewriter animation is timer-driven display only and is not modelled.
- `Text.IsWhitespace` lists the current Unicode space separators; a JavaScript engine built on another Unicode version may differ.
