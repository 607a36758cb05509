/** The state held by the `App` component and the handlers that change it,
    one method per handler. Every method states the whole new state as an
    update of the old one (`State() == old(State()).(...)`), so whatever it
    does not mention is unchanged, and every method keeps `Valid()`: the
    editor always shows a note that exists, and the transcript alternates
    user and assistant entries, ending with the user's exactly while a
    reply is awaited. */
module Workspace {
  import opened Optional
  import opened Text
  import opened Notes
  import opened Chat

  datatype ViewMode = Grid | Editor

  /** All the fields of an App at one moment. */
  datatype Snapshot = Snapshot(
    notes: seq<Note>,
    folders: seq<Folder>,
    viewMode: ViewMode,
    activeNoteId: Option<string>,
    activeFolderId: string,
    selectedNoteIds: seq<string>,
    isSelectMode: bool,
    searchQuery: string,
    draggedIdx: Option<nat>,
    isTyping: bool,
    chatHistory: seq<Entry>,
    status: Option<string>)

  const ImportedStatus: string := "Data imported successfully!"
  const InvalidBackupStatus: string := "Invalid backup file"

  /** What reading a chosen backup file gave: text that is not JSON (or is
      `null`), JSON without a `notes` array, or a `notes` array. */
  datatype BackupFile = NotJson | NoNotesArray | NotesArray(notes: seq<Note>)

  class App {
    var notes: seq<Note>
    var folders: seq<Folder>
    var viewMode: ViewMode
    var activeNoteId: Option<string>
    var activeFolderId: string
    var selectedNoteIds: seq<string>
    var isSelectMode: bool
    var searchQuery: string
    var draggedIdx: Option<nat>
    var isTyping: bool
    var chatHistory: seq<Entry>
    /** The transient toast message (`copyStatus`). */
    var status: Option<string>

    ghost function State(): Snapshot
      reads this
    {
      Snapshot(notes, folders, viewMode, activeNoteId, activeFolderId, selectedNoteIds,
               isSelectMode, searchQuery, draggedIdx, isTyping, chatHistory, status)
    }

    ghost predicate Valid()
      reads this
    {
      && (viewMode == Editor ==> activeNoteId.Some? && activeNoteId.value in NoteIds(notes))
      && Alternates(chatHistory)
      && (isTyping <==> AwaitsReply(chatHistory))
    }

    /** The component's initial state, given the stored (or default) notes
        and folders. */
    constructor (storedNotes: seq<Note>, storedFolders: seq<Folder>)
      ensures Valid()
      ensures State() == Snapshot(storedNotes, storedFolders, Grid, None, AllFolders, [], false, "",
                                  None, false, [], None)
    {
      notes := storedNotes;
      folders := storedFolders;
      viewMode := Grid;
      activeNoteId := None;
      activeFolderId := AllFolders;
      selectedNoteIds := [];
      isSelectMode := false;
      searchQuery := "";
      draggedIdx := None;
      isTyping := false;
      chatHistory := [];
      status := None;
    }

    // -------------------------------------------------------------------
    // Drag reorder
    // -------------------------------------------------------------------

    /** `handleDragStart(e, index)` */
    method DragStart(index: nat)
      requires Valid()
      modifies this
      ensures Valid()
      ensures State() == old(State()).(draggedIdx := Some(index))
    {
      draggedIdx := Some(index);
    }

    /** `handleDragOver(e, index)`: with no drag under way, or over the
        dragged card itself, nothing happens; otherwise the dragged note is
        spliced out of the full list and back in at `index`, and the drag
        continues from there. Both indices are positions in the filtered
        grid, applied to the full list. */
    method DragOver(index: nat)
      requires Valid()
      requires index < |notes|
      requires draggedIdx.Some? ==> draggedIdx.value < |notes|
      modifies this
      ensures Valid()
      ensures old(draggedIdx).None? || old(draggedIdx) == Some(index) ==> State() == old(State())
      ensures old(draggedIdx).Some? && old(draggedIdx) != Some(index) ==>
        State() == old(State()).(notes := Reorder(old(notes), old(draggedIdx).value, index),
                                 draggedIdx := Some(index))
    {
      if draggedIdx.None? || draggedIdx.value == index {
        return;
      }
      var from := draggedIdx.value;
      var remaining := notes;
      var dragged := remaining[from];
      remaining := remaining[..from] + remaining[from + 1..];
      remaining := remaining[..index] + [dragged] + remaining[index..];
      if activeNoteId.Some? {
        ReorderKeepsIds(notes, from, index, activeNoteId.value);
      }
      draggedIdx := Some(index);
      notes := remaining;
    }

    /** `handleDragEnd()` */
    method DragEnd()
      requires Valid()
      modifies this
      ensures Valid()
      ensures State() == old(State()).(draggedIdx := None)
    {
      draggedIdx := None;
    }

    // -------------------------------------------------------------------
    // Creating, moving and deleting notes
    // -------------------------------------------------------------------

    /** `addNote()`: a new empty note, with the clock reading `idTime` as
        its id and `now` as its timestamp, goes in front of the list, filed
        in the current folder (the default one under "all"); it is opened
        in the editor and select mode ends. */
    method AddNote(idTime: nat, now: int)
      requires Valid()
      modifies this
      ensures Valid()
      ensures State() == old(State()).(
        notes := [Note(Decimal(idTime), "", "",
                       if old(activeFolderId) == AllFolders then DefaultFolder else old(activeFolderId),
                       now)] + old(notes),
        activeNoteId := Some(Decimal(idTime)),
        viewMode := Editor,
        isSelectMode := false,
        selectedNoteIds := [])
    {
      var id := Decimal(idTime);
      var folder := if activeFolderId == AllFolders then DefaultFolder else activeFolderId;
      var note := Note(id, "", "", folder, now);
      notes := [note] + notes;
      assert NoteIds(notes)[0] == id;
      activeNoteId := Some(id);
      viewMode := Editor;
      isSelectMode := false;
      selectedNoteIds := [];
    }

    /** `moveSelectedNotes(target)`: the selected notes are filed under
        `target`, the selection is cleared, select mode ends, and the toast
        names the folder (the word "undefined" when no folder has that
        id). */
    method MoveSelectedNotes(target: string)
      requires Valid()
      modifies this
      ensures Valid()
      ensures State() == old(State()).(
        notes := MoveToFolder(old(notes), old(selectedNoteIds), target),
        selectedNoteIds := [],
        isSelectMode := false,
        status := Some("Moved to " + FolderName(folders, target).GetOr("undefined")))
    {
      MoveToFolderKeepsIds(notes, selectedNoteIds, target);
      notes := MoveToFolder(notes, selectedNoteIds, target);
      selectedNoteIds := [];
      isSelectMode := false;
      status := Some("Moved to " + FolderName(folders, target).GetOr("undefined"));
    }

    /** `deleteNotes(ids)`: the notes with those ids go, the selection is
        cleared, and if the open note was among them the editor closes. */
    method DeleteNotes(ids: seq<string>)
      requires Valid()
      modifies this
      ensures Valid()
      ensures old(activeNoteId).Some? && old(activeNoteId).value in ids ==>
        State() == old(State()).(notes := WithoutIds(old(notes), ids), selectedNoteIds := [],
                                 activeNoteId := None, viewMode := Grid)
      ensures !(old(activeNoteId).Some? && old(activeNoteId).value in ids) ==>
        State() == old(State()).(notes := WithoutIds(old(notes), ids), selectedNoteIds := [])
    {
      if activeNoteId.Some? {
        WithoutIdsKeepsId(notes, ids, activeNoteId.value);
      }
      notes := WithoutIds(notes, ids);
      selectedNoteIds := [];
      if activeNoteId.Some? && activeNoteId.value in ids {
        activeNoteId := None;
        viewMode := Grid;
      }
    }

    // -------------------------------------------------------------------
    // Selection
    // -------------------------------------------------------------------

    /** `selectAllVisible()`: the selection becomes the ids of the notes the
        grid shows, in grid order. */
    method SelectAllVisible()
      requires Valid()
      modifies this
      ensures Valid()
      ensures State() == old(State()).(
        selectedNoteIds := NoteIds(Visible(old(notes), old(activeFolderId), old(searchQuery))))
    {
      selectedNoteIds := NoteIds(Visible(notes, activeFolderId, searchQuery));
    }

    /** `toggleSelectNote(id)` */
    method ToggleSelectNote(id: string)
      requires Valid()
      modifies this
      ensures Valid()
      ensures State() == old(State()).(selectedNoteIds := Toggle(old(selectedNoteIds), id))
    {
      selectedNoteIds := Toggle(selectedNoteIds, id);
    }

    /** The "Manage"/"Cancel" button: select mode flips and the selection
        is cleared either way. */
    method ToggleSelectMode()
      requires Valid()
      modifies this
      ensures Valid()
      ensures State() == old(State()).(isSelectMode := !old(isSelectMode), selectedNoteIds := [])
    {
      isSelectMode := !isSelectMode;
      selectedNoteIds := [];
    }

    /** A click on the grid card at `index`: in select mode it toggles that
        note's selection, otherwise it opens the note in the editor. */
    method ClickNote(index: nat)
      requires Valid()
      requires index < |Visible(notes, activeFolderId, searchQuery)|
      modifies this
      ensures Valid()
      ensures var n := Visible(old(notes), old(activeFolderId), old(searchQuery))[index];
        if old(isSelectMode)
        then State() == old(State()).(selectedNoteIds := Toggle(old(selectedNoteIds), n.id))
        else State() == old(State()).(activeNoteId := Some(n.id), viewMode := Editor)
    {
      var visible := Visible(notes, activeFolderId, searchQuery);
      var n := visible[index];
      if isSelectMode {
        ToggleSelectNote(n.id);
      } else {
        VisibleNoteExists(notes, activeFolderId, searchQuery, index);
        activeNoteId := Some(n.id);
        viewMode := Editor;
      }
    }

    // -------------------------------------------------------------------
    // Navigation and search
    // -------------------------------------------------------------------

    /** A sidebar entry (a folder, "All Library" or the logo, which pass
        "all"): the grid shows that folder. */
    method ShowFolder(folderId: string)
      requires Valid()
      modifies this
      ensures Valid()
      ensures State() == old(State()).(activeFolderId := folderId, viewMode := Grid)
    {
      activeFolderId := folderId;
      viewMode := Grid;
    }

    /** The editor's back button. */
    method BackToGrid()
      requires Valid()
      modifies this
      ensures Valid()
      ensures State() == old(State()).(viewMode := Grid)
    {
      viewMode := Grid;
    }

    /** Typing in the search box. */
    method SetSearchQuery(query: string)
      requires Valid()
      modifies this
      ensures Valid()
      ensures State() == old(State()).(searchQuery := query)
    {
      searchQuery := query;
    }

    // -------------------------------------------------------------------
    // Editing the open note
    // -------------------------------------------------------------------

    /** Typing in the title field: the open note's title becomes `title`. */
    method EditTitle(title: string)
      requires Valid()
      modifies this
      ensures Valid()
      ensures State() == old(State()).(notes := EditActive(old(notes), old(activeNoteId), SetTitle(title)))
    {
      EditKeepsIds(notes, activeNoteId, SetTitle(title));
      notes := EditActive(notes, activeNoteId, SetTitle(title));
    }

    /** Input in the rich-text block: the open note's content becomes the
        block's markup. */
    method EditContent(content: string)
      requires Valid()
      modifies this
      ensures Valid()
      ensures State() == old(State()).(notes := EditActive(old(notes), old(activeNoteId), SetContent(content)))
    {
      EditKeepsIds(notes, activeNoteId, SetContent(content));
      notes := EditActive(notes, activeNoteId, SetContent(content));
    }

    // -------------------------------------------------------------------
    // Folders and import
    // -------------------------------------------------------------------

    /** The folder dialog's "Create": a folder named `name` (untrimmed), with
        the clock reading `idTime` as id, is appended when `name` is not
        blank; otherwise nothing changes. */
    method CreateFolder(name: string, idTime: nat, color: string) returns (created: bool)
      requires Valid()
      modifies this
      ensures Valid()
      ensures created <==> !AllWhitespace(name)
      ensures State() == old(State()).(
        folders := if created then old(folders) + [Folder(Decimal(idTime), name, color)] else old(folders))
    {
      TrimEmptyIffBlank(name);
      created := Trim(name) != "";
      if created {
        folders := folders + [Folder(Decimal(idTime), name, color)];
      }
    }

    /** The body of `handleFileUpload`'s reader callback: a `notes` array is
        merged in (first write wins) and announced; text that is not JSON
        is reported; JSON without a `notes` array is ignored. */
    method ImportFile(file: BackupFile)
      requires Valid()
      modifies this
      ensures Valid()
      ensures file.NotesArray? ==>
        State() == old(State()).(notes := Merge(old(notes), file.notes), status := Some(ImportedStatus))
      ensures file.NotJson? ==> State() == old(State()).(status := Some(InvalidBackupStatus))
      ensures file.NoNotesArray? ==> State() == old(State())
    {
      match file
      case NotesArray(imported) =>
        if viewMode == Editor {
          MergeKeepsIds(notes, imported, activeNoteId.value);
        }
        notes := Merge(notes, imported);
        status := Some(ImportedStatus);
      case NotJson =>
        status := Some(InvalidBackupStatus);
      case NoNotesArray =>
    }

    // -------------------------------------------------------------------
    // The assistant chat
    // -------------------------------------------------------------------

    /** `handleAskAI` up to the request: a blank input, or a reply still
        awaited, leaves everything as it is; otherwise the user's message
        (untrimmed) is appended and the latch is set. */
    method SubmitChat(input: string) returns (sent: bool)
      requires Valid()
      modifies this
      ensures Valid()
      ensures sent <==> !AllWhitespace(input) && !old(isTyping)
      ensures !sent ==> State() == old(State())
      ensures sent ==> State() == old(State()).(chatHistory := old(chatHistory) + [Entry(User, input)],
                                                isTyping := true)
    {
      TrimEmptyIffBlank(input);
      if Trim(input) == "" || isTyping {
        return false;
      }
      AlternatesAppend(chatHistory, Entry(User, input));
      chatHistory := chatHistory + [Entry(User, input)];
      isTyping := true;
      sent := true;
    }

    /** `handleAskAI` after the request: exactly one assistant entry for the
        outcome is appended and the latch is released. */
    method SettleChat(outcome: Outcome)
      requires Valid()
      requires isTyping
      modifies this
      ensures Valid()
      ensures State() == old(State()).(chatHistory := old(chatHistory) + [Entry(Assistant, ReplyText(outcome))],
                                       isTyping := false)
    {
      AlternatesAppend(chatHistory, Entry(Assistant, ReplyText(outcome)));
      chatHistory := chatHistory + [Entry(Assistant, ReplyText(outcome))];
      isTyping := false;
    }
  }

  /** One chat turn from an idle panel: the question and exactly one
      answer are appended, a second question while the first is pending is
      turned away, and a 429 answer is the rate-limit message. */
  method ChatTurn(app: App, question: string, outcome: Outcome) returns (reply: Entry)
    requires app.Valid() && !app.isTyping && !AllWhitespace(question)
    modifies app
    ensures app.Valid() && !app.isTyping
    ensures app.chatHistory == old(app.chatHistory) + [Entry(User, question), reply]
    ensures reply == Entry(Assistant, ReplyText(outcome)) && reply.text != []
    ensures outcome.Response? && outcome.status == 429 ==> reply.text == RateLimited
  {
    var sent := app.SubmitChat(question);
    var again := app.SubmitChat(question);
    assert !again;
    app.SettleChat(outcome);
    reply := app.chatHistory[|app.chatHistory| - 1];
  }

  /** The end-to-end path: a note created under "all" is filed in the
      default folder and shown first in the grid; after its title and
      content are typed, going back shows the content as its preview. */
  method CreateEditAndPreview(stored: seq<Note>, idTime: nat, now: int) returns (app: App, shown: Note, preview: string)
    ensures fresh(app) && app.Valid()
    ensures app.viewMode == Grid && |app.notes| == |stored| + 1
    ensures Visible(app.notes, app.activeFolderId, app.searchQuery) == app.notes
    ensures shown == Visible(app.notes, app.activeFolderId, app.searchQuery)[0]
    ensures shown == Note(Decimal(idTime), "Test", "abc", DefaultFolder, now)
    ensures preview == Preview(app.notes[0].content) && preview == "abc"
  {
    app := new App(stored, []);
    var id := Decimal(idTime);
    app.AddNote(idTime, now);
    assert app.notes[0] == Note(id, "", "", DefaultFolder, now);
    app.EditTitle("Test");
    assert app.notes[0] == Note(id, "Test", "", DefaultFolder, now);
    app.EditContent("abc");
    assert app.notes[0] == Note(id, "Test", "abc", DefaultFolder, now);
    app.BackToGrid();
    var grid := Visible(app.notes, app.activeFolderId, app.searchQuery);
    VisibleEverything(app.notes);
    assert grid == app.notes;
    shown := grid[0];
    preview := Preview(shown.content);
    PreviewOfPlainText("abc");
  }
}
