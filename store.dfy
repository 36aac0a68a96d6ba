/** The document library behind the "文献库" page as the program keeps it:
    the records, the list box that shows their titles, the list box's
    selection, the title label and notes editor on the right, and the
    title entry field. `LibraryPage` in library_page.py and `RelationshipApp`
    in main.py carry the same store methods, modelled here once; only
    `LibraryPage` gets through its start-up (see README). Each method is
    proved to do what the matching function of module Library says. */
module Store {
  import opened Text
  import opened Records
  import opened Library

  class LibraryStore {
    /** `_library_data`: the records, in display order. */
    var data: seq<Doc>
    /** The list box's entries. */
    var listed: seq<string>
    /** The list box's selection (`curselection()`), at most one index. */
    var selected: Option<nat>
    /** `_selected_title`: the title label above the notes editor. */
    var shownTitle: string
    /** The notes editor's contents, without the newline Tk keeps at its end. */
    var editorText: string
    /** `_library_title_var`: the title entry field. */
    var entryText: string
    /** The records the library file holds; `None` while it holds none that
        can be read back (no file, or a file that is not valid JSON). */
    ghost var persisted: Option<seq<Doc>>
    /** How many times the library file has been written. */
    ghost var writes: nat

    /** The page as a value. */
    ghost function View(): Page
      reads this
    {
      Page(data, listed, selected, shownTitle, editorText, entryText, persisted, writes)
    }

    ghost predicate Valid()
      reads this
    {
      SelectionValid(View())
    }

    /** `LibraryPage.__init__`: load the library file, then fill the list box. Loading
        leaves the list empty when there is no file or its JSON is invalid,
        and keeps the records as the file has them otherwise. */
    constructor (file: LibraryFile)
      ensures View() == Loaded(file) && Valid()
    {
      data, listed, selected := [], [], None;
      shownTitle, editorText, entryText := "", "", "";
      persisted, writes := None, 0;
      new;
      if file.Json? {
        data, persisted := file.docs, Some(file.docs);
      }
      RefreshList();
    }

    /** `_persist_library_data`: write the whole list to the library file. */
    ghost method Persist()
      modifies this`persisted, this`writes
      ensures View() == Written(old(View()))
    {
      persisted, writes := Some(data), writes + 1;
    }

    /** `_refresh_library_list` / `refresh_list`: empty the list box, which
        also drops its selection, and insert every record's title. */
    method RefreshList()
      modifies this`listed, this`selected
      ensures View() == Refreshed(old(View())) && listed == Titles(data)
    {
      listed := [];
      selected := None;
      for i := 0 to |data|
        invariant |listed| == i && selected == None
        invariant forall k | 0 <= k < i :: listed[k] == TitleOf(data[k])
      {
        listed := listed + [TitleOf(data[i])];
      }
      assert forall k | 0 <= k < |data| :: listed[k] == Titles(data)[k];
    }

    /** The scan over `_library_data` for the first record titled `title`. */
    method IndexOfTitle(title: string) returns (r: Option<nat>)
      ensures r == FirstIndexOf(data, title)
    {
      for i := 0 to |data|
        invariant forall k | 0 <= k < i :: data[k].title != Some(title)
      {
        if data[i].title == Some(title) {
          return Some(i);
        }
      }
      return None;
    }

    /** `_on_document_select`: show the selected record's title and notes,
        each defaulting to "" when the record lacks the key. */
    method OnDocumentSelect()
      requires Valid()
      modifies this`shownTitle, this`editorText
      ensures View() == Shown(old(View()))
    {
      if selected.None? {
        return;
      }
      var doc := data[selected.value];
      shownTitle := TitleOf(doc);
      editorText := NotesOf(doc);
    }

    /** A click on entry `i` of the list box: Tk selects it and raises
        `<<ListboxSelect>>`, which runs `_on_document_select`. */
    method Click(i: nat)
      requires i < |data|
      modifies this`selected, this`shownTitle, this`editorText
      ensures View() == Clicked(old(View()), i) && Valid()
    {
      selected := Some(i);
      OnDocumentSelect();
    }

    /** `_select_document_by_title`: select the first record titled `title`,
        set the title label and raise `<<ListboxSelect>>`, which the list box
        handles at once; with no such record, nothing happens. */
    method SelectDocumentByTitle(title: string)
      requires Valid()
      modifies this`selected, this`shownTitle, this`editorText
      ensures View() == SelectedByTitle(old(View()), title) && Valid()
    {
      var found := IndexOfTitle(title);
      if found.Some? {
        selected := found;
        shownTitle := title;
        OnDocumentSelect();
      }
    }

    /** `_add_document`: strip the entry field; do nothing if that leaves
        nothing; select the first record with that title if there is one;
        otherwise append a record for it, write the file, empty the entry
        field, refill the list box and select the new record. */
    method AddDocument()
      requires Valid()
      modifies this
      ensures View() == Added(old(View())) && Valid()
    {
      var title := Strip(entryText);
      if title == [] {
        return;
      }
      var found := IndexOfTitle(title);
      if found.Some? {
        SelectDocumentByTitle(title);
        return;
      }
      data := data + [NewDoc(title)];
      Persist();
      entryText := "";
      RefreshList();
      SelectDocumentByTitle(title);
    }

    /** `_delete_document`: with a record selected, remove it, write the
        file, refill the list box (dropping the selection) and empty the
        title label and the notes editor; with none selected, do nothing. */
    method DeleteDocument()
      requires Valid()
      modifies this
      ensures View() == Deleted(old(View())) && Valid()
    {
      if selected.None? {
        return;
      }
      var i := selected.value;
      data := data[..i] + data[i + 1..];
      Persist();
      RefreshList();
      shownTitle := "";
      editorText := "";
    }

    /** `_save_notes`: with a record selected, set its "notes" to the editor
        text minus trailing whitespace and write the file; with none
        selected, do nothing. */
    method SaveNotes()
      requires Valid()
      modifies this`data, this`persisted, this`writes
      ensures View() == NotesSaved(old(View())) && Valid()
    {
      if selected.None? {
        return;
      }
      var i := selected.value;
      data := data[i := data[i].(notes := Some(RStrip(TextGet(editorText))))];
      Persist();
    }

    /** `_clear_notes`: empty the notes editor; the records and the file
        are left alone. */
    method ClearNotes()
      modifies this`editorText
      ensures View() == NotesCleared(old(View()))
    {
      editorText := "";
    }
  }
}
