# Smart Notes library state, in Dafny

A model of the note library inside the single `App` component of a
browser note-taking application (`src/App.jsx`). The component keeps an
ordered list of notes (id, title, markup content, folder id, timestamp), a
list of folders, a multi-select selection, the grid/editor view with the
open note and the folder filter, the search text, the drag position, and
the assistant panel's transcript with its "reply awaited" latch. Its
handlers are synchronous list transforms over that state, plus one
asynchronous chat call.

The model has five modules:

- `Optional` (`option.dfy`): the `Option` type that stands for `null` and for
  the empty result of `find`.
- `Text` (`text.dfy`): the string primitives the handlers use, written out:
  ASCII-only `toLowerCase`, `trim` over the ECMAScript whitespace set,
  `includes`, the grid preview's tag-stripping regular expression
  `<[^>]*>?`, and decimal numerals for numbers put into strings.
- `Notes` (`notes.dfy`): the records and the pure transforms: the drag
  splice, the bulk folder move, the delete and import filters, the
  folder-and-search filter, the first-write-wins merge, the selection
  toggle, the edits of the open note, the lookup of a note or folder by
  id, and the preview.
- `Chat` (`chat.dfy`): transcript entries and the assistant text appended
  for each way the remote call can end.
- `Workspace` (`workspace.dfy`): class `App`, holding the component's state
  as fields, with one method per handler. Each method states its whole new
  state as an update of the old one, through the ghost `State()` snapshot,
  and keeps `Valid()`. `Valid()` says two things. In editor view the open
  note's id belongs to a note in the list. The transcript alternates user
  and assistant entries, and it ends with the user's entry exactly while a
  reply is awaited.

Clock readings and colours are method parameters. So is the text of a
controlled input field (the chat input, the folder-name input). The chat
request is reduced to its `Outcome`: no response, or a status with a body
whose relevant fields may be missing. Sending the question is `SubmitChat`.
Handling the outcome is `SettleChat`. Between the two, the latch turns away
further questions.

Some behaviours are kept exactly as the code has them:

- `handleDragOver` gets positions in the filtered grid but splices the
  full list.
- The search matches inside raw markup.
- A folder name is stored untrimmed.
- A "move" toast for an unknown folder reads "Moved to undefined".
- A successful response whose body is not JSON is reported as a network
  error.

The model does not claim that note ids are unique. The code does not make
them so: ids are clock readings, and the import merge filters a backup
only against the notes already present. Two notes in the same file with
the same id are therefore both added.

## Model

| member | source | states |
|---|---|---|
| `Text.LowerIdempotent` | src/App.jsx:199-200 | lower-casing an already lower-cased string changes nothing |
| `Text.Lower` | src/App.jsx:199-200 | same length, and each character is lower-cased in place |
| `Text.TrimStart` | src/App.jsx:304 | the result is a suffix of the input, everything dropped is whitespace, and it does not start with whitespace |
| `Text.TrimEnd` | src/App.jsx:304 | the mirror image of `TrimStart`: a prefix, everything dropped is whitespace, and it does not end with whitespace |
| `Text.TrimEmptyIffBlank` | src/App.jsx:304 | `trim()` yields the empty string exactly when every character is whitespace, in both directions |
| `Text.Trim` | src/App.jsx:304 | the trimmed string is no longer than the input and neither starts nor ends with whitespace |
| `Text.IncludesIffOccurs` | src/App.jsx:199-200 | `includes` holds exactly when the needle occurs at some position of the haystack |
| `Text.Includes` | src/App.jsx:199-200 | a haystack starting with the needle includes it, and a needle that is included is no longer than the haystack |
| `Text.NotIncludedWithoutFirstChar` | src/App.jsx:199-200 | a needle whose first character is absent from the haystack is not included |
| `Text.StripTags` | src/App.jsx:512 | removing every match of `<[^>]*>?` never lengthens the text and leaves no `<` |
| `Text.StripTagsPlain` | src/App.jsx:512 | text without `<` comes through the strip unchanged |
| `Text.StripTagsKeepsText` | src/App.jsx:512 | text before the first `<` is kept as it is, and stripping goes on after it |
| `Text.AfterTagClosed` | src/App.jsx:512 | `[^>]*>` consumes a tag body through its closing `>` and nothing more |
| `Text.AfterTagUnclosed` | src/App.jsx:512 | with no `>` left, `[^>]*>?` consumes the rest of the string |
| `Text.StripTagsDropsTag` | src/App.jsx:512 | a closed tag `<…>` is removed and the text after it is stripped as it would be alone |
| `Text.StripTagsDropsUnclosed` | src/App.jsx:512 | an unclosed `<` removes everything after it |
| `Text.StripTagsIdempotent` | src/App.jsx:512 | stripping twice is stripping once |
| `Text.Prefix` | src/App.jsx:512 | `substring(0, n)` gives the prefix of exactly `n` characters, or the whole string when it is no longer than `n` |
| `Text.Decimal` | src/App.jsx:169 | the numeral of a clock reading is non-empty, all digits, and starts with `0` only for zero (no leading zeros) |
| `Text.DecimalRoundTrip` | src/App.jsx:169 | reading the numeral back gives the number |
| `Notes.Find` | src/App.jsx:124 | finds nothing exactly when no note has the id; otherwise finds a note of the list that has the id |
| `Notes.FindIsFirst` | src/App.jsx:124 | `find` returns the note at the first position holding the id |
| `Notes.FindAppend` | src/App.jsx:124 | a lookup in a concatenation looks in the front part first |
| `Notes.FolderName` | src/App.jsx:182 | finds nothing exactly when no folder has the id; otherwise the name of a folder with that id |
| `Notes.FolderNameIsFirst` | src/App.jsx:182 | `find` takes the name of the first folder holding the id |
| `Notes.Without` | src/App.jsx:157 | `splice(i, 1)` drops one element: earlier ones keep their index, later ones move down by one |
| `Notes.InsertAt` | src/App.jsx:158 | `splice(i, 0, x)` puts `x` at index `i`: earlier elements keep their index, later ones move up by one |
| `Notes.Reorder` | src/App.jsx:154-158 | the list keeps its length and the dragged note is at the target index |
| `Notes.ReorderMovesOnlyTheDraggedNote` | src/App.jsx:154-158 | the dragged note lands at the target index, and removing it again gives the list without it in its old order |
| `Notes.ReorderIsPermutation` | src/App.jsx:154-158 | the reordered list has the same multiset of notes |
| `Notes.ReorderUndo` | src/App.jsx:154-158 | dragging back from the target to the source restores the list |
| `Notes.ReorderKeepsIds` | src/App.jsx:154-158 | an id is present after a reorder exactly when it was before |
| `Notes.MoveToFolder` | src/App.jsx:178 | the notes whose id is selected get the target folder, all others stay as they were, and the length and order are kept |
| `Notes.MoveToFolderKeepsIds` | src/App.jsx:178 | the move keeps every note's id in place |
| `Notes.MoveToFolderIdempotent` | src/App.jsx:178 | moving the same notes to the same folder again changes nothing |
| `Notes.WithoutIds` | src/App.jsx:188 | a subsequence of the notes holding exactly those whose id is not listed |
| `Notes.WithoutIdsCounts` | src/App.jsx:188 | each surviving note occurs as often as in the input; each removed one not at all |
| `Notes.WithoutIdsKeepsId` | src/App.jsx:188-190 | an id survives exactly when some note had it and it was not listed |
| `Notes.FindWithoutIds` | src/App.jsx:188 | filtering out other ids does not change which note an id finds |
| `Notes.Visible` | src/App.jsx:196-203 | a subsequence of the notes holding exactly those in the folder (or any under "all") whose lower-cased title or content includes the lower-cased query |
| `Notes.VisibleCounts` | src/App.jsx:196-203 | each shown note occurs as often as in the full list; each hidden one not at all |
| `Notes.VisibleNoteExists` | src/App.jsx:485-492 | every grid card is a note of the list |
| `Notes.VisibleEverything` | src/App.jsx:196-203 | with "all" and an empty query the grid shows the whole list |
| `Notes.VisibleFolder` | src/App.jsx:198 | with a folder and an empty query, exactly that folder's notes are shown |
| `Notes.SearchIgnoresCase` | src/App.jsx:199-200 | a query and its lower-cased form select the same notes |
| `Notes.SearchFindsInMarkup` | src/App.jsx:199-200 | content `<p>Hello World</p>` matches the query "hello" |
| `Notes.SearchMissesAbsentText` | src/App.jsx:199-200 | the same untitled note does not match "zzz" |
| `Notes.MergeShape` | src/App.jsx:287-290 | the merge is imported notes with new ids, a subsequence of the file, followed by the old list unchanged |
| `Notes.MergeAddsEveryNew` | src/App.jsx:287-290 | each imported note with a new id is added as often as the file holds it, duplicates included; a note whose id is present is not added |
| `Notes.Merge` | src/App.jsx:288-290 | the previous list is kept unchanged as the tail of the merged list |
| `Notes.MergeFirstWriteWins` | src/App.jsx:287-290 | an id already present finds the same record after the merge; a new id finds the first imported note with it |
| `Notes.MergeKeepsIds` | src/App.jsx:287-290 | no id is lost by a merge |
| `Notes.MergeCoversImported` | src/App.jsx:287-290 | after a merge every imported note's id is present |
| `Notes.MergeIdempotent` | src/App.jsx:287-290 | importing the same file twice adds nothing the second time |
| `Notes.Erase` | src/App.jsx:211 | an id is left exactly when it was present and is not the erased one |
| `Notes.Toggle` | src/App.jsx:211 | the toggled id is selected exactly when it was not; no other id changes membership |
| `Notes.ToggleTwice` | src/App.jsx:211 | toggling an unselected id twice restores the selection |
| `Notes.EditActive` | src/App.jsx:402 | the notes whose id is the open one get the edit, all others are unchanged, and the length is kept |
| `Notes.EditKeepsIds` | src/App.jsx:551 | an edit of the title or content never changes an id |
| `Notes.EditShowsInEditor` | src/App.jsx:124 | after an edit the open note, looked up as the editor does, is the old one with the edit applied |
| `Notes.Preview` | src/App.jsx:512 | empty content gives the placeholder; otherwise the first 150 characters of the stripped text (all of it when shorter), a prefix of it with no `<` |
| `Notes.PreviewOfPlainText` | src/App.jsx:512 | short content without markup is previewed as it is |
| `Notes.PreviewOfMarkup` | src/App.jsx:512 | short text wrapped in an opening and a closing tag (such as `<p>Hello</p>`) is previewed as the text alone |
| `Chat.OrElse` | src/App.jsx:339 | `a \|\| b` gives `a` unless it is missing or empty |
| `Chat.IsOk` | src/App.jsx:320 | `response.ok` holds for 200-299, so a successful response never takes the 429 or 403 branch |
| `Chat.ErrorText` | src/App.jsx:320-333 | 429 gives the rate-limit text and 403 the access text; other statuses give the server message or the status number |
| `Chat.ReplyText` | src/App.jsx:320-342 | the appended text is never empty. No response, or an unreadable success body, gives the network-error text. 429 and 403 give their fixed texts. A success gives the candidate text or the fallback. Any other failure gives "HTTP Error " and the status when the body cannot be read, otherwise "API Error: " and the server message or the status |
| `Chat.AlternatesAppend` | src/App.jsx:302-308 | appending the entry whose turn it is keeps user and assistant entries alternating, and a reply is awaited afterwards exactly when the entry is the user's |
| `Chat.ErrorTextNamesStatus` | src/App.jsx:327-329 | a failure without a server message names its status, and the number reads back from the text |
| `Workspace.App.constructor` | src/App.jsx:100-119 | the initial state: grid view, nothing open, folder "all", empty selection, search, transcript and latch |
| `Workspace.App.DragStart` | src/App.jsx:143-148 | the drag position becomes the card index; nothing else changes |
| `Workspace.App.DragOver` | src/App.jsx:150-162 | with no drag or the same index nothing changes; otherwise the full list is reordered and the drag position becomes the index |
| `Workspace.App.DragEnd` | src/App.jsx:164-166 | the drag position is cleared; nothing else changes |
| `Workspace.App.AddNote` | src/App.jsx:168-175 | an empty note goes in front, filed in the current folder or the default one under "all"; it becomes the open note in the editor; select mode ends with an empty selection |
| `Workspace.App.MoveSelectedNotes` | src/App.jsx:177-185 | the selected notes are refiled, the selection is cleared, select mode ends, and the toast names the folder |
| `Workspace.App.DeleteNotes` | src/App.jsx:187-194 | the listed notes go and the selection is cleared; the editor closes exactly when the open note was listed |
| `Workspace.App.SelectAllVisible` | src/App.jsx:205-208 | the selection becomes the ids of the visible notes in grid order |
| `Workspace.App.ToggleSelectNote` | src/App.jsx:210-212 | the selection becomes its toggle by the id; nothing else changes |
| `Workspace.App.ToggleSelectMode` | src/App.jsx:462 | select mode flips and the selection is cleared |
| `Workspace.App.ClickNote` | src/App.jsx:492 | in select mode the card's note is toggled; otherwise it is opened in the editor |
| `Workspace.App.ShowFolder` | src/App.jsx:377 | the folder filter becomes the chosen folder and the grid is shown |
| `Workspace.App.BackToGrid` | src/App.jsx:401 | the grid is shown; nothing else changes |
| `Workspace.App.SetSearchQuery` | src/App.jsx:397 | the search text becomes the typed text |
| `Workspace.App.EditTitle` | src/App.jsx:402 | the open note's title becomes the typed title |
| `Workspace.App.EditContent` | src/App.jsx:551 | the open note's content becomes the editor's markup |
| `Workspace.App.CreateFolder` | src/App.jsx:613 | a folder with the untrimmed name is appended exactly when the name is not blank |
| `Workspace.App.ImportFile` | src/App.jsx:283-297 | a notes array is merged in and announced; unparsable text is reported; other JSON changes nothing |
| `Workspace.App.SubmitChat` | src/App.jsx:302-308 | blank input or an awaited reply changes nothing; otherwise the untrimmed message is appended and the latch is set |
| `Workspace.App.SettleChat` | src/App.jsx:320-343 | exactly one assistant entry with the outcome's text is appended and the latch is released |
| `Workspace.ChatTurn` | src/App.jsx:302-344 | a turn appends the question and exactly one answer. A second question while the first is pending is turned away. A 429 answer is the rate-limit text. The latch ends released |
| `Workspace.CreateEditAndPreview` | src/App.jsx:168-175 | on a fresh app, a new note typed as "Test"/"abc" is back in the grid view, the grid under "all" shows the whole list (the stored notes plus one), its first card is that note in the default folder, and its preview is "abc" |

## Left out

- Persistence: loading from and saving to `localStorage`, and the fallbacks
  to a welcome note and the "General" folder. The constructor takes the
  stored lists as parameters.
- Exports and sharing: the clipboard copy, file download, `navigator.share`,
  and the text and JSON export builders (`shareSelectedNotes`,
  `handleBackup`). They depend on platform APIs, `JSON.stringify` and
  locale-dependent dates.
- The chat request itself: the context string built from the first five
  notes, the `fetch` call, and the JSON reading of the response. They only
  reach the network. Their result is the abstract `Outcome`.
- File reading (`FileReader`) and `JSON.parse` of a backup: `ImportFile`
  receives what parsing produced, as a `BackupFile`.
- Elements of an imported `notes` array are taken to be well-formed note
  records. Elements that are not objects, or that lack fields, are not
  modelled, so the `|| ''` fallbacks of the filter are identities here.
- Presentation-only state: the sidebar, theme, dropdowns, modals, the sync
  flag, the clearing of the toast by `setTimeout`, the rich-text
  `EditorBlock` and `document.execCommand` formatting, and image insertion.
- `Text.Lower`: lower-cases ASCII letters only, not the full Unicode
  mapping of `toLowerCase`.
- `Text.Prefix`, `Notes.Preview`, `Text.Includes`: characters are code
  points, not UTF-16 code units, so `substring(0, 150)` cuts content with
  characters outside the Basic Multilingual Plane (emoji) at a different
  place, and `includes` cannot match half of a surrogate pair.
- `Workspace.App.DragOver`: requires both indices to lie within the full
  list. A drag position left past the end of the list would make
  `handleDragOver`'s splice insert `undefined`, which the model does not represent.
- `Workspace.App.SubmitChat`: the latch is modelled as read from the
  current state. React closures could let two submissions made before one
  re-render both pass it.
- Input fields: the chat input and the new-folder name are parameters of
  `SubmitChat` and `CreateFolder`, not fields of `App`, so their clearing
  after a send and after a create is not represented.
