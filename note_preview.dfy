/**
  The note preview component's pure logic: selecting its props from the
  application state, choosing between the markdown and the plain-text
  rendering, and the edit a click on a task item sends to the store.

  JavaScript's `null` and `undefined` are both `None`; the `??` operator
  falls back on either.
*/
module NotePreview {
  import opened Wrappers
  import TaskToggle

  type EntityId = string

  /** A note as the preview reads it: its text, its system tags (such as
      "markdown") and the user's own tags. */
  datatype Note = Note(content: string, systemTags: seq<string>, tags: seq<string>)

  datatype Settings = Settings(fontSize: int)

  datatype UiState = UiState(
    dialogs: seq<string>,
    showNoteInfo: bool,
    openedNote: Option<EntityId>,
    searchQuery: string)

  datatype DataState = DataState(notes: map<EntityId, Note>)

  /** The parts of the application state the preview reads. */
  datatype AppState = AppState(settings: Settings, ui: UiState, data: DataState)

  /** The props a parent passes in; either may be missing. */
  datatype OwnProps = OwnProps(noteId: Option<EntityId>, note: Option<Note>)

  /** The props selected from the state. */
  datatype StateProps = StateProps(
    fontSize: int,
    isFocused: bool,
    note: Option<Note>,
    noteId: Option<EntityId>,
    searchQuery: string)

  /** What the preview renders: the markdown renderer's input, or the text
      that is shown literally (before checkbox characters are substituted). */
  datatype Rendering = Markdown(source: string, searchQuery: string) | PlainText(text: string)

  /** The message sent to the store's note editor. */
  datatype Edit = Edit(noteId: Option<EntityId>, content: string)

  /** A lookup in the note map, `undefined` for a missing key or a missing id. */
  function NoteById(notes: map<EntityId, Note>, id: Option<EntityId>): (r: Option<Note>)
    ensures r.Some? <==> id.Some? && id.value in notes
    ensures r.Some? ==> r.value == notes[id.value]
  {
    if id.Some? && id.value in notes then Some(notes[id.value]) else None
  }

  /** The preview's props: it is focused when no dialog is open and the note
      info panel is hidden; a note passed in wins over the stored note with
      the passed id; the id falls back on the opened note. */
  function MapStateToProps(state: AppState, props: OwnProps): (r: StateProps)
    ensures r.fontSize == state.settings.fontSize && r.searchQuery == state.ui.searchQuery
    ensures r.isFocused <==> |state.ui.dialogs| == 0 && !state.ui.showNoteInfo
    ensures props.note.Some? ==> r.note == props.note
    ensures props.note.None? ==> r.note == NoteById(state.data.notes, props.noteId)
    ensures r.noteId == if props.noteId.Some? then props.noteId else state.ui.openedNote
  {
    StateProps(
      state.settings.fontSize,
      |state.ui.dialogs| == 0 && !state.ui.showNoteInfo,
      if props.note.Some? then props.note else NoteById(state.data.notes, props.noteId),
      if props.noteId.Some? then props.noteId else state.ui.openedNote,
      state.ui.searchQuery)
  }

  /** When the note is not passed in, the note shown is the stored note of
      the selected id, and the selected id is missing only when neither an id
      is passed nor a note is opened. */
  lemma SelectedNoteMatchesSelectedId(state: AppState, props: OwnProps)
    ensures var r := MapStateToProps(state, props);
      props.note.None? && r.note.Some? ==>
        r.noteId.Some? && r.noteId.value in state.data.notes && r.note.value == state.data.notes[r.noteId.value]
    ensures MapStateToProps(state, props).noteId.None? <==>
      props.noteId.None? && state.ui.openedNote.None?
  {
  }

  /** The opened note supplies only the id: with neither a note nor an id
      passed in, no note is selected even when the opened note is stored. */
  lemma OpenedNoteIsNotLookedUp(state: AppState, props: OwnProps)
    requires props.note.None? && props.noteId.None?
    ensures MapStateToProps(state, props).note.None?
    ensures MapStateToProps(state, props).noteId == state.ui.openedNote
  {
  }

  /** The markdown renderer is used exactly when there is a note with
      non-empty content carrying the "markdown" system tag; otherwise the
      content, or the empty text when there is no note, is shown literally. */
  function Render(note: Option<Note>, searchQuery: string): (r: Rendering)
    ensures r.Markdown? <==> note.Some? && note.value.content != [] && "markdown" in note.value.systemTags
    ensures r.Markdown? ==> r.source == note.value.content && r.searchQuery == searchQuery
    ensures r.PlainText? ==> r.text == if note.Some? then note.value.content else []
  {
    if note.Some? && note.value.content != [] && "markdown" in note.value.systemTags then
      Markdown(note.value.content, searchQuery)
    else
      PlainText(if note.Some? then note.value.content else [])
  }

  /** The rendering depends on the note only through its content and its
      system tags, the note fields the rendering effect lists as its
      dependencies; in particular a user tag "markdown" selects nothing. */
  lemma RenderDependsOnContentAndSystemTags(n1: Note, n2: Note, searchQuery: string)
    requires n1.content == n2.content && n1.systemTags == n2.systemTags
    ensures Render(Some(n1), searchQuery) == Render(Some(n2), searchQuery)
  {
  }

  /** The edit a click on the task with ordinal `taskIndex` sends: same note
      id, text of the same length and number of task characters, unchanged for
      an index that selects no task, otherwise the selected match flipped
      (U+E000 to U+E001, any other match to U+E000) and nothing else changed. */
  function TaskClickEdit(noteId: Option<EntityId>, note: Note, taskIndex: int): (e: Edit)
    ensures e.noteId == noteId
    ensures |e.content| == |note.content|
    ensures TaskToggle.Count(TaskToggle.AsWritten, e.content) == TaskToggle.Count(TaskToggle.AsWritten, note.content)
    ensures e.content == note.content <==> TaskToggle.TargetPosition(TaskToggle.AsWritten, note.content, taskIndex).None?
    ensures e.content == match TaskToggle.TargetPosition(TaskToggle.AsWritten, note.content, taskIndex)
      case Some(p) => note.content[p := TaskToggle.Flip(note.content[p])]
      case None => note.content
  {
    var content := TaskToggle.Toggled(TaskToggle.AsWritten, note.content, taskIndex);
    TaskToggle.TaskOrdinalsPreserved(TaskToggle.AsWritten, note.content, taskIndex, taskIndex);
    TaskToggle.ToggleChangesOnlyTarget(TaskToggle.AsWritten, note.content, taskIndex);
    Edit(noteId, content)
  }
}
