/** The note library's records and the pure list transforms the `App`
    component applies to them: the drag splice, the bulk folder move, the
    delete filter, the folder-and-search filter, the first-write-wins
    import merge, the selection toggle, the edits of the open note and the
    grid preview. */
module Notes {
  import opened Optional
  import opened Text

  datatype Note = Note(id: string, title: string, content: string, folderId: string, timestamp: int)

  datatype Folder = Folder(id: string, name: string, color: string)

  /** The folder filter value that shows every note. */
  const AllFolders: string := "all"
  /** The folder a note created under "all" is filed in. */
  const DefaultFolder: string := "default"
  /** What the grid shows for a note with empty content. */
  const NoContentYet: string := "No content yet..."
  /** How many characters of stripped content the grid shows. */
  const PreviewLength: nat := 150

  function NoteIds(notes: seq<Note>): (ids: seq<string>)
    ensures |ids| == |notes|
    ensures forall i :: 0 <= i < |notes| ==> ids[i] == notes[i].id
  {
    seq(|notes|, i requires 0 <= i < |notes| => notes[i].id)
  }

  /** `a` is `b` with some entries left out, the rest in their order. */
  predicate SubsequenceOf(a: seq<Note>, b: seq<Note>)
    decreases |b|
  {
    if a == [] then true
    else if b == [] then false
    else (a[0] == b[0] && SubsequenceOf(a[1..], b[1..])) || SubsequenceOf(a, b[1..])
  }

  // ---------------------------------------------------------------------
  // Lookup: `notes.find(n => n.id === id)`
  // ---------------------------------------------------------------------

  /** The first note carrying `id`, if any. */
  function Find(notes: seq<Note>, id: string): (r: Option<Note>)
    ensures r.None? <==> id !in NoteIds(notes)
    ensures r.Some? ==> r.value in notes && r.value.id == id
    decreases |notes|
  {
    if notes == [] then None
    else if notes[0].id == id then Some(notes[0])
    else
      assert NoteIds(notes) == [notes[0].id] + NoteIds(notes[1..]);
      Find(notes[1..], id)
  }

  /** Find returns the note at the first position holding `id`. */
  lemma {:induction false} FindIsFirst(notes: seq<Note>, id: string, k: nat)
    requires k < |notes| && notes[k].id == id
    requires forall j :: 0 <= j < k ==> notes[j].id != id
    ensures Find(notes, id) == Some(notes[k])
    decreases k
  {
    if k > 0 {
      FindIsFirst(notes[1..], id, k - 1);
    }
  }

  /** Looking up in a concatenation looks in the front part first. */
  lemma {:induction false} FindAppend(a: seq<Note>, b: seq<Note>, id: string)
    ensures Find(a + b, id) == if id in NoteIds(a) then Find(a, id) else Find(b, id)
    decreases |a|
  {
    if a == [] {
      assert a + b == b;
    } else {
      assert (a + b)[1..] == a[1..] + b;
      assert NoteIds(a) == [a[0].id] + NoteIds(a[1..]);
      FindAppend(a[1..], b, id);
    }
  }

  /** `folders.find(f => f.id === id)?.name` */
  function FolderName(folders: seq<Folder>, id: string): (r: Option<string>)
    ensures r.None? <==> forall f :: f in folders ==> f.id != id
    ensures r.Some? ==> exists f :: f in folders && f.id == id && f.name == r.value
    decreases |folders|
  {
    if folders == [] then None
    else if folders[0].id == id then Some(folders[0].name)
    else
      assert forall f :: f in folders <==> f == folders[0] || f in folders[1..];
      FolderName(folders[1..], id)
  }

  /** Like `find`, the name comes from the first folder holding `id`. */
  lemma {:induction false} FolderNameIsFirst(folders: seq<Folder>, id: string, k: nat)
    requires k < |folders| && folders[k].id == id
    requires forall j :: 0 <= j < k ==> folders[j].id != id
    ensures FolderName(folders, id) == Some(folders[k].name)
    decreases k
  {
    if k > 0 {
      FolderNameIsFirst(folders[1..], id, k - 1);
    }
  }

  // ---------------------------------------------------------------------
  // Drag reorder: `splice(from, 1)` then `splice(to, 0, dragged)`
  // ---------------------------------------------------------------------

  /** `s.splice(i, 1)` on a copy of `s`. */
  function Without(s: seq<Note>, i: nat): (r: seq<Note>)
    requires i < |s|
    ensures |r| == |s| - 1
    ensures forall j :: 0 <= j < |r| ==> r[j] == if j < i then s[j] else s[j + 1]
  {
    s[..i] + s[i + 1..]
  }

  /** `s.splice(i, 0, x)` on a copy of `s`. */
  function InsertAt(s: seq<Note>, i: nat, x: Note): (r: seq<Note>)
    requires i <= |s|
    ensures |r| == |s| + 1
    ensures r[i] == x
    ensures forall j :: 0 <= j < |s| ==> s[j] == if j < i then r[j] else r[j + 1]
  {
    s[..i] + [x] + s[i..]
  }

  /** The list after the dragged note at `from` is taken out and put back
      in at `to`. */
  function Reorder(s: seq<Note>, from: nat, to: nat): (r: seq<Note>)
    requires from < |s| && to < |s|
    ensures |r| == |s|
    ensures r[to] == s[from]
  {
    InsertAt(Without(s, from), to, s[from])
  }

  /** The dragged note lands at `to`, and taking it out again leaves the
      other notes exactly as they were without it: their relative order is
      untouched. */
  lemma ReorderMovesOnlyTheDraggedNote(s: seq<Note>, from: nat, to: nat)
    requires from < |s| && to < |s|
    ensures Reorder(s, from, to)[to] == s[from]
    ensures Without(Reorder(s, from, to), to) == Without(s, from)
  {
    var rest := Without(s, from);
    var r := Reorder(s, from, to);
    assert r[..to] == rest[..to];
    assert r[to + 1..] == rest[to..];
  }

  /** Reordering neither loses nor duplicates a note. */
  lemma ReorderIsPermutation(s: seq<Note>, from: nat, to: nat)
    requires from < |s| && to < |s|
    ensures multiset(Reorder(s, from, to)) == multiset(s)
  {
    var rest := Without(s, from);
    assert s == s[..from] + [s[from]] + s[from + 1..];
    assert multiset(s) == multiset(rest) + multiset{s[from]};
    assert rest == rest[..to] + rest[to..];
  }

  /** Dragging the note back to where it came from restores the list. */
  lemma ReorderUndo(s: seq<Note>, from: nat, to: nat)
    requires from < |s| && to < |s|
    ensures Reorder(Reorder(s, from, to), to, from) == s
  {
    ReorderMovesOnlyTheDraggedNote(s, from, to);
    var r := Reorder(s, from, to);
    assert Without(r, to) == Without(s, from);
    assert s == InsertAt(Without(s, from), from, s[from]);
  }

  /** Reordering keeps the same set of ids. */
  lemma ReorderKeepsIds(s: seq<Note>, from: nat, to: nat, id: string)
    requires from < |s| && to < |s|
    ensures id in NoteIds(Reorder(s, from, to)) <==> id in NoteIds(s)
  {
    ReorderIsPermutation(s, from, to);
    var r := Reorder(s, from, to);
    if id in NoteIds(s) {
      var i :| 0 <= i < |s| && s[i].id == id;
      assert s[i] in multiset(r);
      var j :| 0 <= j < |r| && r[j] == s[i];
      assert NoteIds(r)[j] == id;
    }
    if id in NoteIds(r) {
      var j :| 0 <= j < |r| && r[j].id == id;
      assert r[j] in multiset(s);
      var i :| 0 <= i < |s| && s[i] == r[j];
      assert NoteIds(s)[i] == id;
    }
  }

  // ---------------------------------------------------------------------
  // Bulk folder move
  // ---------------------------------------------------------------------

  function Refile(n: Note, ids: seq<string>, target: string): Note {
    if n.id in ids then n.(folderId := target) else n
  }

  /** `notes.map(n => ids.includes(n.id) ? { ...n, folderId: target } : n)`:
      every note whose id is in `ids` is filed under `target`, every other
      note is left exactly as it was, and length and order are kept. */
  function MoveToFolder(notes: seq<Note>, ids: seq<string>, target: string): (r: seq<Note>)
    ensures |r| == |notes|
    ensures forall i :: 0 <= i < |notes| && notes[i].id in ids ==> r[i] == notes[i].(folderId := target)
    ensures forall i :: 0 <= i < |notes| && notes[i].id !in ids ==> r[i] == notes[i]
    decreases |notes|
  {
    if notes == [] then []
    else [Refile(notes[0], ids, target)] + MoveToFolder(notes[1..], ids, target)
  }

  /** Moving keeps every note's id in place. */
  lemma MoveToFolderKeepsIds(notes: seq<Note>, ids: seq<string>, target: string)
    ensures NoteIds(MoveToFolder(notes, ids, target)) == NoteIds(notes)
  {
  }

  /** Moving the same notes to the same folder twice changes nothing more. */
  lemma MoveToFolderIdempotent(notes: seq<Note>, ids: seq<string>, target: string)
    ensures MoveToFolder(MoveToFolder(notes, ids, target), ids, target) == MoveToFolder(notes, ids, target)
  {
  }

  // ---------------------------------------------------------------------
  // Filtering out ids (bulk delete, import)
  // ---------------------------------------------------------------------

  /** `notes.filter(n => !ids.includes(n.id))`: the notes whose id is not in
      `ids`, in their original order. */
  function WithoutIds(notes: seq<Note>, ids: seq<string>): (r: seq<Note>)
    ensures SubsequenceOf(r, notes)
    ensures forall n :: n in r <==> n in notes && n.id !in ids
    decreases |notes|
  {
    if notes == [] then []
    else
      var rest := WithoutIds(notes[1..], ids);
      assert notes == [notes[0]] + notes[1..];
      assert forall n :: n in notes <==> n == notes[0] || n in notes[1..];
      if notes[0].id in ids then
        rest
      else
        assert ([notes[0]] + rest)[1..] == rest;
        [notes[0]] + rest
  }

  /** The filter keeps every kept note as often as it occurred. */
  lemma {:induction false} WithoutIdsCounts(notes: seq<Note>, ids: seq<string>, n: Note)
    ensures multiset(WithoutIds(notes, ids))[n] == if n.id in ids then 0 else multiset(notes)[n]
    decreases |notes|
  {
    if notes != [] {
      WithoutIdsCounts(notes[1..], ids, n);
      assert notes == [notes[0]] + notes[1..];
      assert multiset(notes) == multiset{notes[0]} + multiset(notes[1..]);
      var rest := WithoutIds(notes[1..], ids);
      if notes[0].id in ids {
        assert WithoutIds(notes, ids) == rest;
      } else {
        assert WithoutIds(notes, ids) == [notes[0]] + rest;
        assert multiset([notes[0]] + rest) == multiset{notes[0]} + multiset(rest);
      }
    }
  }

  /** An id survives the filter exactly when some note carried it and it
      was not filtered out. */
  lemma WithoutIdsKeepsId(notes: seq<Note>, ids: seq<string>, id: string)
    ensures id in NoteIds(WithoutIds(notes, ids)) <==> id in NoteIds(notes) && id !in ids
  {
    var r := WithoutIds(notes, ids);
    if id in NoteIds(notes) && id !in ids {
      var i :| 0 <= i < |notes| && notes[i].id == id;
      assert notes[i] in r;
      var j :| 0 <= j < |r| && r[j] == notes[i];
      assert NoteIds(r)[j] == id;
    }
    if id in NoteIds(r) {
      var j :| 0 <= j < |r| && r[j].id == id;
      assert r[j] in notes;
      var i :| 0 <= i < |notes| && notes[i] == r[j];
      assert NoteIds(notes)[i] == id;
    }
  }

  /** Filtering out other ids does not change which note an id finds. */
  lemma {:induction false} FindWithoutIds(notes: seq<Note>, ids: seq<string>, id: string)
    requires id !in ids
    ensures Find(WithoutIds(notes, ids), id) == Find(notes, id)
    decreases |notes|
  {
    if notes != [] {
      FindWithoutIds(notes[1..], ids, id);
    }
  }

  // ---------------------------------------------------------------------
  // Folder and search filter
  // ---------------------------------------------------------------------

  predicate InFolder(n: Note, folder: string) {
    folder == AllFolders || n.folderId == folder
  }

  /** Case-insensitive substring match on the title or on the raw markup
      of the content. */
  predicate MatchesSearch(n: Note, query: string) {
    Includes(Lower(n.title), Lower(query)) || Includes(Lower(n.content), Lower(query))
  }

  predicate Shown(n: Note, folder: string, query: string) {
    InFolder(n, folder) && MatchesSearch(n, query)
  }

  /** `getFilteredNotes()`: the notes in the folder (or all of them) that
      match the search, in their original order. */
  function Visible(notes: seq<Note>, folder: string, query: string): (r: seq<Note>)
    ensures SubsequenceOf(r, notes)
    ensures forall n :: n in r <==> n in notes && Shown(n, folder, query)
    decreases |notes|
  {
    if notes == [] then []
    else
      var rest := Visible(notes[1..], folder, query);
      assert notes == [notes[0]] + notes[1..];
      assert forall n :: n in notes <==> n == notes[0] || n in notes[1..];
      if Shown(notes[0], folder, query) then
        assert ([notes[0]] + rest)[1..] == rest;
        [notes[0]] + rest
      else
        rest
  }

  /** The filter keeps every shown note as often as it occurred. */
  lemma {:induction false} VisibleCounts(notes: seq<Note>, folder: string, query: string, n: Note)
    ensures multiset(Visible(notes, folder, query))[n] == if Shown(n, folder, query) then multiset(notes)[n] else 0
    decreases |notes|
  {
    if notes != [] {
      VisibleCounts(notes[1..], folder, query, n);
      assert notes == [notes[0]] + notes[1..];
      var rest := Visible(notes[1..], folder, query);
      assert Visible(notes, folder, query) == if Shown(notes[0], folder, query) then [notes[0]] + rest else rest;
    }
  }

  /** Every card in the grid is a note of the list. */
  lemma VisibleNoteExists(notes: seq<Note>, folder: string, query: string, k: nat)
    requires k < |Visible(notes, folder, query)|
    ensures Visible(notes, folder, query)[k].id in NoteIds(notes)
  {
    var n := Visible(notes, folder, query)[k];
    assert n in notes;
    var i :| 0 <= i < |notes| && notes[i] == n;
    assert NoteIds(notes)[i] == n.id;
  }

  /** With the "all" folder and an empty search every note is shown. */
  lemma {:induction false} VisibleEverything(notes: seq<Note>)
    ensures Visible(notes, AllFolders, "") == notes
    decreases |notes|
  {
    if notes != [] {
      assert Lower("") == "";
      assert MatchesSearch(notes[0], "") by {
        IncludesEmpty(Lower(notes[0].title));
      }
      assert Visible(notes, AllFolders, "") == [notes[0]] + Visible(notes[1..], AllFolders, "");
      VisibleEverything(notes[1..]);
    }
  }

  /** With a specific folder and an empty search, exactly that folder's
      notes are shown. */
  lemma VisibleFolder(notes: seq<Note>, folder: string, n: Note)
    requires folder != AllFolders
    ensures n in Visible(notes, folder, "") <==> n in notes && n.folderId == folder
  {
    assert Lower("") == "";
    IncludesEmpty(Lower(n.title));
  }

  /** The search ignores ASCII case: a query and its lower-cased form
      select the same notes. */
  lemma {:induction false} SearchIgnoresCase(notes: seq<Note>, folder: string, query: string)
    ensures Visible(notes, folder, query) == Visible(notes, folder, Lower(query))
    decreases |notes|
  {
    LowerIdempotent(query);
    if notes != [] {
      SearchIgnoresCase(notes[1..], folder, query);
    }
  }

  /** A note whose content is the markup `<p>Hello World</p>` is found by
      the query "hello": the match may fall inside the markup. */
  lemma SearchFindsInMarkup(n: Note)
    requires n.content == "<p>Hello World</p>"
    ensures MatchesSearch(n, "hello")
  {
    var c := Lower(n.content);
    assert c[3..8] == "hello";
    assert Lower("hello") == "hello";
    assert OccursAt(c, "hello", 3);
    IncludesIffOccurs(c, "hello");
  }

  /** The same note, untitled, is not found by "zzz". */
  lemma SearchMissesAbsentText(n: Note)
    requires n.title == "" && n.content == "<p>Hello World</p>"
    ensures !MatchesSearch(n, "zzz")
  {
    var c := Lower(n.content);
    assert Lower("zzz") == "zzz";
    forall i | 0 <= i < |c| ensures c[i] != 'z' {
      assert n.content[i] != 'z' && n.content[i] != 'Z';
    }
    NotIncludedWithoutFirstChar(c, "zzz");
    NotIncludedWithoutFirstChar(Lower(n.title), "zzz");
  }

  // ---------------------------------------------------------------------
  // Import merge
  // ---------------------------------------------------------------------

  /** `[...imported.filter(n => !existingIds.has(n.id)), ...prev]` */
  function Merge(prev: seq<Note>, imported: seq<Note>): (r: seq<Note>)
    ensures |r| >= |prev| && r[|r| - |prev|..] == prev
  {
    WithoutIds(imported, NoteIds(prev)) + prev
  }

  /** The merged list is the imported notes with new ids, in file order,
      followed by the previous list unchanged. */
  lemma MergeShape(prev: seq<Note>, imported: seq<Note>)
    ensures var r := Merge(prev, imported);
      |r| >= |prev| && r[|r| - |prev|..] == prev
      && SubsequenceOf(r[..|r| - |prev|], imported)
      && forall i :: 0 <= i < |r| - |prev| ==> r[i].id !in NoteIds(prev)
  {
    var added := WithoutIds(imported, NoteIds(prev));
    var r := Merge(prev, imported);
    assert r[..|r| - |prev|] == added;
    assert forall i :: 0 <= i < |added| ==> added[i] in added;
  }

  /** Every imported note with a new id is added, as often as the file
      holds it (duplicates within the file included); notes whose id is
      already present are not added at all. */
  lemma MergeAddsEveryNew(prev: seq<Note>, imported: seq<Note>, n: Note)
    ensures var r := Merge(prev, imported);
      multiset(r[..|r| - |prev|])[n] == if n.id in NoteIds(prev) then 0 else multiset(imported)[n]
  {
    var r := Merge(prev, imported);
    assert r[..|r| - |prev|] == WithoutIds(imported, NoteIds(prev));
    WithoutIdsCounts(imported, NoteIds(prev), n);
  }

  /** First write wins: an id already present still finds the same record,
      and an id that was not present finds the first imported note with it. */
  lemma MergeFirstWriteWins(prev: seq<Note>, imported: seq<Note>, id: string)
    ensures id in NoteIds(prev) ==> Find(Merge(prev, imported), id) == Find(prev, id)
    ensures id !in NoteIds(prev) ==> Find(Merge(prev, imported), id) == Find(imported, id)
  {
    var added := WithoutIds(imported, NoteIds(prev));
    FindAppend(added, prev, id);
    WithoutIdsKeepsId(imported, NoteIds(prev), id);
    if id !in NoteIds(prev) {
      FindWithoutIds(imported, NoteIds(prev), id);
    }
  }

  /** A merge loses no id. */
  lemma MergeKeepsIds(prev: seq<Note>, imported: seq<Note>, id: string)
    requires id in NoteIds(prev)
    ensures id in NoteIds(Merge(prev, imported))
  {
    assert NoteIds(Merge(prev, imported)) == NoteIds(WithoutIds(imported, NoteIds(prev))) + NoteIds(prev);
  }

  /** After a merge every imported note's id is present. */
  lemma MergeCoversImported(prev: seq<Note>, imported: seq<Note>, n: Note)
    requires n in imported
    ensures n.id in NoteIds(Merge(prev, imported))
  {
    var added := WithoutIds(imported, NoteIds(prev));
    assert NoteIds(Merge(prev, imported)) == NoteIds(added) + NoteIds(prev);
    if n.id !in NoteIds(prev) {
      assert n in added;
      var j :| 0 <= j < |added| && added[j] == n;
      assert NoteIds(added)[j] == n.id;
    }
  }

  /** Importing the same file twice adds nothing the second time. */
  lemma MergeIdempotent(prev: seq<Note>, imported: seq<Note>)
    ensures Merge(Merge(prev, imported), imported) == Merge(prev, imported)
  {
    var once := Merge(prev, imported);
    var again := WithoutIds(imported, NoteIds(once));
    if again != [] {
      assert again[0] in again;
      MergeCoversImported(prev, imported, again[0]);
      assert false;
    }
    assert again + once == once;
  }

  // ---------------------------------------------------------------------
  // Selection toggle
  // ---------------------------------------------------------------------

  /** `sel.filter(i => i !== id)` */
  function Erase(sel: seq<string>, id: string): (r: seq<string>)
    ensures forall x :: x in r <==> x in sel && x != id
    decreases |sel|
  {
    if sel == [] then []
    else if sel[0] == id then Erase(sel[1..], id)
    else [sel[0]] + Erase(sel[1..], id)
  }

  /** `sel.includes(id) ? sel.filter(i => i !== id) : [...sel, id]`:
      afterwards `id` is selected exactly when it was not before, and no
      other id changes. */
  function Toggle(sel: seq<string>, id: string): (r: seq<string>)
    ensures id in r <==> id !in sel
    ensures forall x :: x != id ==> (x in r <==> x in sel)
  {
    if id in sel then Erase(sel, id) else sel + [id]
  }

  /** Toggling an unselected id twice restores the selection exactly. */
  lemma {:induction false} ToggleTwice(sel: seq<string>, id: string)
    requires id !in sel
    ensures Toggle(Toggle(sel, id), id) == sel
  {
    EraseAppended(sel, id);
  }

  lemma {:induction false} EraseAppended(sel: seq<string>, id: string)
    requires id !in sel
    ensures Erase(sel + [id], id) == sel
    decreases |sel|
  {
    if sel != [] {
      assert (sel + [id])[1..] == sel[1..] + [id];
      EraseAppended(sel[1..], id);
    }
  }

  // ---------------------------------------------------------------------
  // Edits of the open note
  // ---------------------------------------------------------------------

  datatype Edit = SetTitle(title: string) | SetContent(content: string)

  function Apply(n: Note, e: Edit): Note {
    match e
    case SetTitle(t) => n.(title := t)
    case SetContent(c) => n.(content := c)
  }

  /** `notes.map(n => n.id === active ? { ...n, field: value } : n)`: the
      notes whose id is the open one get the edit, all others are left as
      they were; with no open note nothing changes. */
  function EditActive(notes: seq<Note>, active: Option<string>, e: Edit): (r: seq<Note>)
    ensures |r| == |notes|
    ensures forall i :: 0 <= i < |notes| ==>
      r[i] == if active == Some(notes[i].id) then Apply(notes[i], e) else notes[i]
    decreases |notes|
  {
    if notes == [] then []
    else
      [if active == Some(notes[0].id) then Apply(notes[0], e) else notes[0]]
      + EditActive(notes[1..], active, e)
  }

  /** Edits never change an id. */
  lemma EditKeepsIds(notes: seq<Note>, active: Option<string>, e: Edit)
    ensures NoteIds(EditActive(notes, active, e)) == NoteIds(notes)
  {
  }

  /** After an edit, the open note (the first with its id, as the editor
      looks it up) is the old one with the edit applied. */
  lemma {:induction false} EditShowsInEditor(notes: seq<Note>, id: string, e: Edit)
    ensures Find(EditActive(notes, Some(id), e), id) ==
            if Find(notes, id).Some? then Some(Apply(Find(notes, id).value, e)) else None
    decreases |notes|
  {
    if notes != [] {
      var r := EditActive(notes, Some(id), e);
      assert r[1..] == EditActive(notes[1..], Some(id), e);
      EditShowsInEditor(notes[1..], id, e);
    }
  }

  // ---------------------------------------------------------------------
  // Grid preview
  // ---------------------------------------------------------------------

  /** `content ? content.replace(/<[^>]*>?/gm, '').substring(0, 150)
      : 'No content yet...'`. A non-empty content gives the first 150
      characters of its tag-free text (all of it when shorter), with no
      `<` left. */
  function Preview(content: string): (r: string)
    ensures content == "" ==> r == NoContentYet
    ensures content != "" ==> '<' !in r && r <= StripTags(content)
    ensures content != "" ==>
      |r| == if |StripTags(content)| <= PreviewLength then |StripTags(content)| else PreviewLength
  {
    if content == "" then NoContentYet else Prefix(StripTags(content), PreviewLength)
  }

  /** Text wrapped in an opening and a closing tag is previewed without
      the tags, e.g. `<p>Hello</p>` as `Hello`. */
  lemma PreviewOfMarkup(open: string, text: string, close: string)
    requires '>' !in open && '>' !in close
    requires text != [] && '<' !in text && |text| <= PreviewLength
    ensures Preview(['<'] + open + ['>'] + text + ['<'] + close + ['>']) == text
  {
    var tail := ['<'] + close + ['>'];
    var rest := text + tail;
    assert ['<'] + open + ['>'] + text + ['<'] + close + ['>'] == ['<'] + open + ['>'] + rest;
    StripTagsDropsTag(open, rest);
    StripTagsKeepsText(text, tail);
    assert tail == ['<'] + close + ['>'] + [];
    StripTagsDropsTag(close, []);
    assert StripTags(tail) == [];
    assert StripTags(rest) == text;
  }

  /** Short plain text is previewed as it is. */
  lemma PreviewOfPlainText(content: string)
    requires content != "" && |content| <= PreviewLength && '<' !in content
    ensures Preview(content) == content
  {
    StripTagsPlain(content);
  }
}
