/** The library page as a value: what each action of the page does to the
    records, the list box, the title label, the notes editor, the title
    entry field and the library file, and the properties those actions
    keep. The class in store.dfy is proved to behave as these functions
    say. */
module Library {
  import opened Text
  import opened Records

  /** What `_load_library_data` finds at the library file's path. */
  datatype LibraryFile =
    | Absent                     // no file
    | Malformed                  // a file whose text is not valid JSON
    | Json(docs: seq<Doc>)       // a file holding a JSON array of records

  /** Everything the page holds. `persisted` is what the library file holds
      (`None` while there is no file that can be read back) and `writes`
      counts the writes to it. */
  datatype Page = Page(
    data: seq<Doc>,
    listed: seq<string>,
    selected: Option<nat>,
    shownTitle: string,
    editorText: string,
    entryText: string,
    persisted: Option<seq<Doc>>,
    writes: nat)

  /** The list box's selection, if any, is one of the records. */
  predicate SelectionValid(p: Page) {
    p.selected.Some? ==> p.selected.value < |p.data|
  }

  /** The list box shows every record's title, in order. */
  predicate ListShowsTitles(p: Page) {
    p.listed == Titles(p.data)
  }

  /** The library file holds exactly the records in memory, or there is no
      readable file and there are no records. */
  predicate Synced(p: Page) {
    p.persisted == Some(p.data) || (p.persisted.None? && p.data == [])
  }

  predicate Coherent(p: Page) {
    SelectionValid(p) && ListShowsTitles(p) && Synced(p)
  }

  /** What Tk's `Text.get("1.0", END)` returns for an editor showing `text`:
      the widget always keeps a newline at its end. */
  function TextGet(text: string): string {
    text + "\n"
  }

  /** `_persist_library_data`: write the records to the library file. */
  function Written(p: Page): Page {
    p.(persisted := Some(p.data), writes := p.writes + 1)
  }

  /** `_refresh_library_list`: empty the list box, which also drops its
      selection, and insert every record's title. */
  function Refreshed(p: Page): Page {
    p.(listed := Titles(p.data), selected := None)
  }

  /** Start-up: load the library file, then fill the list box. */
  function Loaded(file: LibraryFile): (r: Page)
    ensures Coherent(r) && r.selected == None && r.writes == 0
    ensures r.data == (if file.Json? then file.docs else [])
  {
    var docs := if file.Json? then file.docs else [];
    Refreshed(Page(docs, [], None, "", "", "", if file.Json? then Some(docs) else None, 0))
  }

  /** `_on_document_select`: show the selected record's title and notes,
      each `""` when the record lacks the key. */
  function Shown(p: Page): Page
    requires SelectionValid(p)
  {
    match p.selected
    case None => p
    case Some(i) => p.(shownTitle := TitleOf(p.data[i]), editorText := NotesOf(p.data[i]))
  }

  /** A click on entry `i` of the list box: Tk selects it and raises
      `<<ListboxSelect>>`. */
  function Clicked(p: Page, i: nat): Page
    requires i < |p.data|
  {
    Shown(p.(selected := Some(i)))
  }

  /** `_select_document_by_title`: select the first record titled `title`,
      set the title label and raise `<<ListboxSelect>>`; with no such
      record, nothing happens. */
  function SelectedByTitle(p: Page, title: string): (r: Page)
    requires SelectionValid(p)
    ensures SelectionValid(r)
  {
    match FirstIndexOf(p.data, title)
    case None => p
    case Some(i) => Shown(p.(selected := Some(i), shownTitle := title))
  }

  /** `_add_document`: strip the entry field and stop if nothing is left;
      select the first record with that title if there is one; otherwise
      append `{"title": title, "notes": ""}`, write the file, empty the
      entry field, refill the list box and select the title. */
  function Added(p: Page): (r: Page)
    requires SelectionValid(p)
    ensures SelectionValid(r)
  {
    var t := Strip(p.entryText);
    if t == [] then p
    else if FirstIndexOf(p.data, t).Some? then SelectedByTitle(p, t)
    else
      var appended := p.(data := p.data + [NewDoc(t)]);
      SelectedByTitle(Refreshed(Written(appended).(entryText := "")), t)
  }

  /** `_delete_document`: with record `i` selected, remove it, write the
      file, refill the list box and empty the title label and the notes
      editor; with none selected, do nothing. */
  function Deleted(p: Page): (r: Page)
    requires SelectionValid(p)
    ensures SelectionValid(r)
  {
    match p.selected
    case None => p
    case Some(i) =>
      var removed := p.(data := p.data[..i] + p.data[i + 1..]);
      Refreshed(Written(removed)).(shownTitle := "", editorText := "")
  }

  /** `_save_notes`: with record `i` selected, set its "notes" to the
      editor's text minus trailing whitespace and write the file; with
      none selected, do nothing. */
  function NotesSaved(p: Page): (r: Page)
    requires SelectionValid(p)
    ensures SelectionValid(r)
  {
    match p.selected
    case None => p
    case Some(i) =>
      var notes := RStrip(TextGet(p.editorText));
      Written(p.(data := p.data[i := p.data[i].(notes := Some(notes))]))
  }

  /** `_clear_notes`: empty the notes editor. */
  function NotesCleared(p: Page): (r: Page)
    ensures r.editorText == ""
    ensures r.data == p.data && r.persisted == p.persisted && r.writes == p.writes
  {
    p.(editorText := "")
  }

  // ---- Selecting ----

  /** Clicking entry `i` shows record `i`, with `""` for a missing key, and
      changes nothing but the selection, the title label and the editor. */
  lemma ClickShowsRecord(p: Page, i: nat)
    requires i < |p.data|
    ensures var r := Clicked(p, i);
      && r.selected == Some(i) && r.shownTitle == TitleOf(p.data[i]) && r.editorText == NotesOf(p.data[i])
      && r.(selected := p.selected, shownTitle := p.shownTitle, editorText := p.editorText) == p
  {
  }

  lemma ClickKeepsCoherent(p: Page, i: nat)
    requires Coherent(p) && i < |p.data|
    ensures Coherent(Clicked(p, i))
  {
  }

  /** Selecting by title selects the first record holding it and shows that
      record; with no record holding it, nothing changes. */
  lemma SelectByTitleFindsFirst(p: Page, title: string)
    requires SelectionValid(p)
    ensures var r := SelectedByTitle(p, title);
      match FirstIndexOf(p.data, title)
      case None => r == p
      case Some(i) =>
        && r.selected == Some(i) && r.shownTitle == title && r.editorText == NotesOf(p.data[i])
        && r.(selected := p.selected, shownTitle := p.shownTitle, editorText := p.editorText) == p
  {
  }

  /** Under distinct titles, selecting a record's own title selects it. */
  lemma SelectOwnTitle(p: Page, i: nat)
    requires SelectionValid(p) && DistinctTitles(p.data) && i < |p.data| && p.data[i].title.Some?
    ensures SelectedByTitle(p, p.data[i].title.value).selected == Some(i)
  {
    DistinctFindsItself(p.data, i);
  }

  lemma SelectByTitleKeepsCoherent(p: Page, title: string)
    requires Coherent(p)
    ensures Coherent(SelectedByTitle(p, title))
  {
  }

  // ---- Adding ----

  /** An entry field holding only whitespace makes add do nothing at all. */
  lemma AddBlankIsNoop(p: Page)
    requires SelectionValid(p) && AllSpace(p.entryText)
    ensures Added(p) == p
  {
    StripEmptyIff(p.entryText);
  }

  /** Adding a title some record already has changes no record, writes
      nothing, leaves the list box and the entry field as they were, and
      selects and shows the first record with that title. */
  lemma AddExistingSelectsFirst(p: Page, i: nat)
    requires SelectionValid(p)
    requires Strip(p.entryText) != [] && FirstIndexOf(p.data, Strip(p.entryText)) == Some(i)
    ensures var r := Added(p);
      && r.data == p.data && r.persisted == p.persisted && r.writes == p.writes
      && r.listed == p.listed && r.entryText == p.entryText
      && r.selected == Some(i) && r.shownTitle == Strip(p.entryText) && r.editorText == NotesOf(p.data[i])
  {
  }

  /** Adding a title no record has appends exactly one record
      `{"title": title, "notes": ""}` after the others, writes the file,
      empties the entry field, shows the new list and selects the new
      record, whose empty notes the editor then shows. */
  lemma AddFreshAppends(p: Page)
    requires SelectionValid(p)
    requires Strip(p.entryText) != [] && FirstIndexOf(p.data, Strip(p.entryText)).None?
    ensures var t, r := Strip(p.entryText), Added(p);
      && r.data == p.data + [NewDoc(t)] && r.persisted == Some(r.data) && r.writes == p.writes + 1
      && r.entryText == "" && r.listed == Titles(r.data)
      && r.selected == Some(|p.data|) && r.shownTitle == t && r.editorText == ""
  {
    AppendFreshFoundLast(p.data, Strip(p.entryText));
  }

  /** Add never gives two records the same title. */
  lemma AddKeepsTitlesDistinct(p: Page)
    requires SelectionValid(p) && DistinctTitles(p.data)
    ensures DistinctTitles(Added(p).data)
  {
    var t := Strip(p.entryText);
    if t != [] && FirstIndexOf(p.data, t).None? {
      AppendFreshKeepsDistinct(p.data, t);
      AddFreshAppends(p);
    }
  }

  lemma AddKeepsCoherent(p: Page)
    requires Coherent(p)
    ensures Coherent(Added(p))
  {
    var t := Strip(p.entryText);
    if t != [] && FirstIndexOf(p.data, t).None? {
      AddFreshAppends(p);
    }
  }

  /** Adding the same title a second time finds the record the first add
      made or found: no record is added and the selection stays on it. */
  lemma AddAgainChangesNothing(p: Page)
    requires SelectionValid(p) && Strip(p.entryText) != []
    ensures var q := Added(p);
      var r := Added(q.(entryText := p.entryText));
      && r.data == q.data && r.persisted == q.persisted && r.writes == q.writes
      && r.selected == q.selected
      && q.selected == FirstIndexOf(q.data, Strip(p.entryText))
  {
    var t := Strip(p.entryText);
    var q := Added(p);
    match FirstIndexOf(p.data, t)
    case Some(i) =>
      AddExistingSelectsFirst(p, i);
      AddExistingSelectsFirst(q.(entryText := p.entryText), i);
    case None =>
      AddFreshAppends(p);
      AddExistingSelectsFirst(q.(entryText := p.entryText), |p.data|);
  }

  // ---- Deleting ----

  /** With nothing selected, delete does nothing. */
  lemma DeleteWithoutSelectionIsNoop(p: Page)
    requires SelectionValid(p) && p.selected.None?
    ensures Deleted(p) == p
  {
  }

  /** Deleting the selected record `i` removes exactly that record and
      moves the later ones up by one, writes the file, drops the selection
      and empties the title label and the editor; the list box loses entry
      `i`. */
  lemma DeleteRemovesSelected(p: Page)
    requires SelectionValid(p) && p.selected.Some?
    ensures var i, r := p.selected.value, Deleted(p);
      && |r.data| == |p.data| - 1
      && (forall k | 0 <= k < i :: r.data[k] == p.data[k])
      && (forall k | i <= k < |r.data| :: r.data[k] == p.data[k + 1])
      && r.persisted == Some(r.data) && r.writes == p.writes + 1
      && r.selected == None && r.shownTitle == "" && r.editorText == "" && r.entryText == p.entryText
      && (ListShowsTitles(p) ==> r.listed == p.listed[..i] + p.listed[i + 1..])
  {
    var i := p.selected.value;
    TitlesRemove(p.data, i);
    var d := Deleted(p).data;
    assert forall k | 0 <= k < |d| :: d[k] == p.data[if k < i then k else k + 1];
  }

  /** Delete never gives two records the same title; under distinct
      titles, the deleted record's title is no longer found. */
  lemma DeleteKeepsTitlesDistinct(p: Page)
    requires SelectionValid(p) && DistinctTitles(p.data)
    ensures DistinctTitles(Deleted(p).data)
    ensures p.selected.Some? && p.data[p.selected.value].title.Some? ==>
      FirstIndexOf(Deleted(p).data, p.data[p.selected.value].title.value).None?
  {
    if p.selected.Some? {
      RemoveKeepsDistinct(p.data, p.selected.value);
    }
  }

  lemma DeleteKeepsCoherent(p: Page)
    requires Coherent(p)
    ensures Coherent(Deleted(p))
  {
  }

  // ---- Saving and clearing notes ----

  /** Saving with record `i` selected sets its notes to the editor's text
      minus trailing whitespace (the newline Tk adds goes with it), leaves
      its title and every other record as they were, and writes the file;
      nothing else changes. */
  lemma SaveNotesChangesOnlyNotes(p: Page)
    requires SelectionValid(p) && p.selected.Some?
    ensures var i, r := p.selected.value, NotesSaved(p);
      && |r.data| == |p.data|
      && r.data[i].notes == Some(RStrip(p.editorText)) && r.data[i].title == p.data[i].title
      && (forall k | 0 <= k < |p.data| && k != i :: r.data[k] == p.data[k])
      && Titles(r.data) == Titles(p.data)
      && r.persisted == Some(r.data) && r.writes == p.writes + 1
      && r.(data := p.data, persisted := p.persisted, writes := p.writes) == p
  {
    var i := p.selected.value;
    RStripIgnoresNewline(p.editorText);
    SetNotesSameTitles(p.data, i, RStrip(p.editorText));
    SameTitlesListed(NotesSaved(p).data, p.data);
  }

  /** With nothing selected, saving notes does nothing: no record changes
      and the file is not written. */
  lemma SaveNotesWithoutSelectionIsNoop(p: Page)
    requires SelectionValid(p) && p.selected.None?
    ensures NotesSaved(p) == p
  {
  }

  /** Saving notes never changes whether titles are distinct. */
  lemma SaveNotesKeepsTitlesDistinct(p: Page)
    requires SelectionValid(p)
    ensures DistinctTitles(NotesSaved(p).data) == DistinctTitles(p.data)
  {
    if p.selected.Some? {
      var i := p.selected.value;
      SetNotesSameTitles(p.data, i, RStrip(TextGet(p.editorText)));
      SameTitlesDistinct(NotesSaved(p).data, p.data);
    }
  }

  lemma SaveNotesKeepsCoherent(p: Page)
    requires Coherent(p)
    ensures Coherent(NotesSaved(p))
  {
    if p.selected.Some? {
      SaveNotesChangesOnlyNotes(p);
    }
  }

  lemma ClearNotesKeepsCoherent(p: Page)
    requires Coherent(p)
    ensures Coherent(NotesCleared(p))
  {
  }
}
