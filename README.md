# Note preview: task toggling and prop selection

This project models the logic of the note preview component of the
Simplenote Electron client (`lib/components/note-preview/index.tsx`). Its parts are:

- **Task toggle.** A note marks each task item with a private-use sentinel character:
  U+E000 for unchecked, U+E001 for checked. A click on the rendered task with ordinal
  `taskIndex` runs a regular-expression substitution over the note's text. A counter
  numbers each match left to right, and the match whose number equals `taskIndex` is
  flipped. `taskIndex` can be -1 when the clicked element is not found. The resulting
  text goes to the store's note editor.
- **Prop selection.** `mapStateToProps` decides whether the preview is focused. It also
  picks the note to show and its id.
- **Render choice.** The preview uses the markdown renderer only for a note with
  non-empty content and the `markdown` system tag. Any other note is shown as plain text.

Module `TaskToggle` (`task_toggle.dfy`) holds the substitution. It is generic over the
character class the pattern matches:

- `AsWritten` is the class the source writes, `[\ue000|\ue001]`. This bracket class
  matches U+E000, U+E001 and the literal `|`.
- `Intended` is the two sentinels alone.

The source behaviour is `AsWritten`. The click edit `NotePreview.TaskClickEdit` uses it,
and so does every statement below that is about the source.

`ReplaceMatches` is the substitution as the source performs it: one pass with a mutable
match counter. It is proved equal to `Toggled`, a position-by-position definition based
on each match's ordinal (the number of matches before it). `TargetPosition` names the
one position a given index selects. The lemmas then state the following:

- the substitution changes exactly that position and flips it there;
- an index out of range changes nothing;
- the number of matches is kept, so every task keeps its ordinal;
- applying the substitution to its own result at the same index restores the text, except when the target is a `|`.

Module `NotePreview` (`note_preview.dfy`) holds the prop selector, the render choice
and the edit sent on a task click. JavaScript's `null` and `undefined` are both `None`.

## Model

| member | source | states |
|---|---|---|
| `TaskToggle.Flip` | lib/components/note-preview/index.tsx:97-101 | the targeted match becomes a sentinel different from itself; it becomes U+E001 exactly when it was U+E000, so U+E001 and a matched `\|` both become U+E000 |
| `TaskToggle.Count` | lib/components/note-preview/index.tsx:95-97 | the number of matched characters (the final value of the match counter) never exceeds the text length |
| `TaskToggle.Toggled` | lib/components/note-preview/index.tsx:95-102 | the substituted text has the original length; every character outside the matched class is unchanged at its position; a position holds a match afterwards exactly when it held one before |
| `TaskToggle.TargetPosition` | lib/components/note-preview/index.tsx:95-97 | a target exists exactly when 0 <= taskIndex < number of matches; when it exists it is a matched position whose ordinal equals taskIndex |
| `TaskToggle.ReplaceMatches` | lib/components/note-preview/index.tsx:95-102 | the one-pass scan with a counter compared before its increment yields exactly `Toggled` |
| `TaskToggle.CountPrefixMonotone` | lib/components/note-preview/index.tsx:96-97 | ordinals never decrease along the text, and a match has a smaller ordinal than every later position |
| `TaskToggle.OrdinalsDistinct` | lib/components/note-preview/index.tsx:96-97 | two different matches never share an ordinal, so no index selects two positions |
| `TaskToggle.OrdinalBelowCount` | lib/components/note-preview/index.tsx:96-97 | every match's ordinal is below the number of matches |
| `TaskToggle.ToggleChangesOnlyTarget` | lib/components/note-preview/index.tsx:95-102 | the substituted text equals the original with only the target position flipped, or equals the original when there is no target |
| `TaskToggle.ChangedPositionIsTarget` | lib/components/note-preview/index.tsx:95-97 | a position changes if and only if it is the match whose ordinal equals taskIndex, so at most one position changes |
| `TaskToggle.OutOfRangeIndexLeavesContent` | lib/components/note-preview/index.tsx:93-101 | a taskIndex of -1 (element not found), any negative index, or one at least the number of matches leaves the text unchanged |
| `TaskToggle.CountsAgree` | lib/components/note-preview/index.tsx:96 | two texts that match at the same positions give each position the same ordinal |
| `TaskToggle.TaskOrdinalsPreserved` | lib/components/note-preview/index.tsx:96-102 | a toggle keeps the number of matches, and every index selects the same position before and after it |
| `TaskToggle.ToggleTwice` | lib/components/note-preview/index.tsx:97-101 | toggling the same index twice restores the text if and only if there is no target or the target is not a `\|`; a targeted `\|` ends as U+E001 |
| `TaskToggle.IntendedToggleIsInvolution` | lib/components/note-preview/index.tsx:96-101 | with the sentinel-only class, toggling an index twice always restores the text and a `\|` is never altered |
| `TaskToggle.PipeTakesFirstTaskOrdinal` | lib/components/note-preview/index.tsx:96 | for the text `\|` followed by an unchecked task, index 0 turns the `\|` into U+E000 and leaves the task unchecked; the sentinel-only class checks the task |
| `NotePreview.NoteById` | lib/components/note-preview/index.tsx:149 | the map lookup finds a note exactly when an id is given and stored, and then returns the stored note |
| `NotePreview.MapStateToProps` | lib/components/note-preview/index.tsx:146-152 | `isFocused` holds exactly when no dialog is open and note info is hidden; a note passed in is used, otherwise the note stored under the passed id; the id is the passed one, falling back on the opened note; font size and search query pass through |
| `NotePreview.SelectedNoteMatchesSelectedId` | lib/components/note-preview/index.tsx:149-150 | a note that was not passed in is the stored note of the selected id; the selected id is missing exactly when no id is passed and no note is opened |
| `NotePreview.OpenedNoteIsNotLookedUp` | lib/components/note-preview/index.tsx:149-150 | with neither note nor id passed in, the id falls back on the opened note but no note is selected, because the lookup uses the passed id |
| `NotePreview.Render` | lib/components/note-preview/index.tsx:119-124 | the markdown path is taken exactly when the note exists, its content is non-empty and its system tags include `markdown`; that path gets the content and the search query; otherwise the literal text is the content, or empty without a note |
| `NotePreview.RenderDependsOnContentAndSystemTags` | lib/components/note-preview/index.tsx:119-126 | the choice and its inputs depend only on content and system tags, the fields the rendering effect lists; a user tag `markdown` changes nothing |
| `NotePreview.TaskClickEdit` | lib/components/note-preview/index.tsx:93-104 | the edit goes to the preview's note id; the new content has the original length and number of task characters; it equals the old content exactly when the index selects no match; otherwise it is the old content with the selected match flipped (U+E000 to U+E001, U+E001 or a matched `\|` to U+E000) and nothing else changed |

## Findings

| source | as written | input that shows it | evidently intended | confidence | as-written member | corrected member |
|---|---|---|---|---|---|---|
| lib/components/note-preview/index.tsx:96 | the bracket class `[\ue000\|\ue001]` also matches a literal `\|`, and each pipe takes a task ordinal | a note with a table pipe before its first task, `\|` then U+E000, clicked on task 0: the pipe becomes U+E000 and the task stays unchecked; toggling the resulting text again at index 0 (`ToggleTwice`) turns the former pipe into U+E001 | the class `[\ue000\ue001]`, which numbers only the sentinels, so that each toggle flips the clicked task's sentinel and toggling an index twice restores the text | high; not executed | `TaskToggle.PipeTakesFirstTaskOrdinal` (with `TaskToggle.ToggleTwice` for the failed round trip) | `TaskToggle.IntendedToggleIsInvolution` (the `Intended` class of `Toggled` and `ReplaceMatches`) |

The click edit `TaskClickEdit` keeps the class as written, so that it still describes
what the handler does. The corrected class goes through the same `Toggled`,
`ReplaceMatches` and lemmas.

## Left out

- The copy handler (index.tsx:42-69) is not modelled. It reads the DOM selection, renders asynchronously, and writes to the clipboard with a fallback path. All of that is browser I/O.
- The click handler's DOM walk and task lookup (index.tsx:73-93) are not modelled. This covers the parent-node loop, the `querySelectorAll` query at 90-92, the `indexOf` at 93, and the link branch that opens external URLs. `taskIndex` is a parameter instead. It may be any integer, -1 included.
- The link test at index.tsx:74 reads `note.tagName` rather than the node's tag, so that branch does not fire for a note object. For a missing note it throws before any edit is made. `TaskClickEdit` takes a present `Note`, so this throwing path is not modelled.
- The click handler is registered once, with an empty dependency list (index.tsx:112). It therefore keeps the `note`, `noteId` and `editNote` of the first render. `TaskClickEdit` takes these as parameters and does not model that staleness. Every later click therefore starts again from the first render's content: on U+E000 U+E000, clicking task 0 and then task 1 sends U+E000 U+E001, which undoes the first check. `ToggleTwice`, `TaskOrdinalsPreserved` and the other lemmas about repeated toggles describe the substitution applied to its own result, not a sequence of clicks.
- `renderToNode`, `withCheckboxCharacters`, `viewExternalUrl` and `actions.data.editNote` are not part of this model. `Render` stops at the input handed to the renderer or to `withCheckboxCharacters`. `Edit` is the message handed to `editNote`.
- The early return when the preview element does not exist (index.tsx:115-117), the JSX markup, React hooks and listener registration and teardown are framework and DOM lifecycle. They are not modelled.
- `lib/boot-with-auth.tsx` is not modelled. It does store construction, sync middleware wiring, window debug hooks, Electron IPC and mounting.
- `fontSize` is a JavaScript number, modelled as `int` because the selector only passes it through. Dialog entries are abstracted as strings because only the number of entries is read.
- Text is modelled as a sequence of Unicode scalar values (Dafny's `char`), not of UTF-16 code units as in JavaScript. A character outside the Basic Multilingual Plane is one position here but two code units in the source, and a lone surrogate cannot be represented. The toggle's ordinals and its "one position changes" result carry over, because every matched character and every replacement is a single code unit that is not a surrogate. Lengths and positions, however, are counted in scalar values.
