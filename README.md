# paperRLT document library store, in Dafny

paperRLT is a Tk desktop app for browsing literature. Its "文献库" (document
library) page keeps an ordered list of records, each a JSON object with a
`"title"` and a `"notes"` key, in a file `library_data.json`. The page shows
the titles in a list box, and the selected record's title and notes to the
right of it. It has four actions:

- **add**: take the typed title with surrounding whitespace stripped; select the first record with that title, or append a new record for it.
- **delete**: remove the selected record.
- **save notes**: store the editor text, minus trailing whitespace, as the selected record's notes.
- **clear notes**: empty the editor.

Every change to the records is written back to the file at once.

The same store methods exist twice: in `RelationshipApp` (main.py) and in the
stand-alone `LibraryPage` (library_page.py). One class, `Store.LibraryStore`,
models them. Only `LibraryPage` gets through its start-up, though. The
`RelationshipApp` constructor calls `_apply_theme` at main.py:32, which reaches
`_apply_library_theme` (main.py:288-291). That method reads
`_library_controls`, which main.py:34 only assigns afterwards, so the
constructor stops with an `AttributeError` before it loads anything (see
"## Left out"). The start-up is therefore modelled on `LibraryPage`; the store
methods as written in both files. The class's fields are:

- the records;
- the list box entries and its single selection;
- the title label, the notes editor and the title entry field;
- two ghost fields: the records the file holds, and a count of file writes.

The project has four modules:

- `Text` (text.dfy): Python's argument-less `str.strip` and `str.rstrip`, over Python's `str.isspace` character set.
- `Records` (records.dfy): the record datatype and the list functions the store uses (the list box titles, the first-match search, distinct titles), with lemmas about how append, removal and a notes update affect them.
- `Library` (page.dfy): the whole page as a value `Page`, one function per action of the page, and the lemmas that state what each action does and which properties it keeps.
- `Store` (store.dfy): the class, one method per store operation. Each method updates the fields in place and is proved to leave the page as the matching `Library` function says.

Tk's event plumbing is replaced by direct calls, as Tk performs it:

- Clearing the list box (`delete(0, END)`) also drops its selection.
- `event_generate("<<ListboxSelect>>")` runs the bound `_on_document_select` handler before it returns.
- A user click is `Click(i)`.
- `Text.get("1.0", END)` returns the editor text plus a trailing newline.

Every action keeps three properties, which together form `Coherent`:

- the selection stays inside the list (`SelectionValid`);
- the list box shows the records' titles (`ListShowsTitles`);
- once the file has been read back or written, it holds exactly the records in memory (`Synced`).

Add and delete also keep titles pairwise distinct, if they were distinct before.

Three facts about the code that the model keeps:

- The notes are stored under the key `"notes"`.
- Clear notes empties only the editor. It neither changes the records nor writes the file.
- Loading does not fill in missing keys, so a loaded record may lack `"title"` or `"notes"`. The list box, the title label and the editor fall back to `""` (`doc.get(key, "")`). The title searches in add and select-by-title (main.py:357, main.py:403) use `doc.get("title")` with no default, so a record without a title never matches them, not even the empty title.

## Model

| member | source | states |
|---|---|---|
| Text.RStrip | main.py:419 | `rstrip()` yields a prefix of the text that does not end in whitespace, and everything it cuts off is whitespace |
| Text.RStripUnique | main.py:419 | those properties determine the `rstrip()` result: any prefix with them is it |
| Text.RStripIgnoresNewline | main.py:419 | the newline Tk appends to the editor text is removed by `rstrip()`, so the notes are the typed text minus trailing whitespace |
| Text.LStrip | main.py:352 | the left half of `strip()` yields a suffix that does not start with whitespace, and everything it cuts off is whitespace |
| Text.Strip | main.py:352 | `strip()` yields a contiguous slice of the text with only whitespace before and after it, and the slice neither starts nor ends in whitespace |
| Text.StripEmptyIff | main.py:352-354 | the stripped title is empty exactly when the typed title is all whitespace |
| Records.Titles | main.py:347-349 | the list box entries are the records' titles in order, with `""` for a record that lacks a title |
| Records.FindFrom | main.py:402-409 | the scan from a position returns the first later record whose title equals the given one, and `None` exactly when there is none |
| Records.FirstIndexOf | main.py:356-359 | the search finds the first record with the given title (a record without a title never matches), and returns `None` exactly when no record has it |
| Records.AppendFreshKeepsDistinct | main.py:356-361 | appending a record under a title that no record has keeps titles pairwise distinct |
| Records.AppendFreshFoundLast | main.py:361-365 | after that append, the search for the title finds the new last record |
| Records.DistinctFindsItself | main.py:402-409 | under distinct titles, the search for a record's own title finds that record |
| Records.RemoveKeepsDistinct | main.py:374-375 | removing a record keeps titles distinct; under distinct titles, the removed title is no longer found |
| Records.TitlesRemove | main.py:375-377 | after a removal, the titles are the old ones without entry `i`, with later entries shifted down |
| Records.SameTitlesListed | main.py:419 | records that differ only in notes give the same list box entries |
| Records.SameTitlesDistinct | main.py:419 | records that differ only in notes agree on whether titles are distinct |
| Library.Loaded | library_page.py:10-28 | start-up: `_load_library_data` (library_page.py:106-111) gives no records for an absent or malformed file, and for a JSON list gives its records as they are, with no keys filled in. Then `refresh_list` runs: the list box shows their titles, nothing is selected, and the page is coherent |
| Library.SelectedByTitle | main.py:398-409 | selecting by title keeps the selection inside the list |
| Library.Added | main.py:351-365 | add keeps the selection inside the list |
| Library.Deleted | main.py:367-381 | delete keeps the selection inside the list |
| Library.NotesSaved | main.py:411-420 | saving notes keeps the selection inside the list |
| Library.NotesCleared | main.py:422-423 | clear notes empties the editor and leaves the records and the file as they were. `library_page.py:171-172` does the same in the stand-alone page |
| Library.ClickShowsRecord | main.py:383-396 | clicking entry `i` selects record `i` and shows its title and notes (`""` for a missing key); nothing else changes. `library_page.py:175-188` does the same in the stand-alone page |
| Library.SelectByTitleFindsFirst | main.py:398-409 | selecting by title selects and shows the first record with that title, and changes nothing else; with no such record, nothing changes. `library_page.py:190-201` does the same in the stand-alone page |
| Library.SelectOwnTitle | main.py:402-409 | under distinct titles, selecting a record's own title selects that record |
| Library.AddBlankIsNoop | main.py:352-354 | an entry field holding only whitespace makes add change nothing: no record, no write, no selection change. `library_page.py:129-131` does the same in the stand-alone page |
| Library.AddExistingSelectsFirst | main.py:356-359 | adding an existing title leaves the records, the file, the list box and the entry field as they were, and selects and shows the first record with it. `library_page.py:133-136` does the same in the stand-alone page |
| Library.AddFreshAppends | main.py:361-365 | adding a new title appends exactly `{"title": t, "notes": ""}` after the old records, writes the file, empties the entry field, lists the titles and selects the new last record. `library_page.py:138-142` does the same in the stand-alone page |
| Library.AddKeepsTitlesDistinct | main.py:356-361 | if no two records shared a title before add, none do after it. `library_page.py:133-138` does the same in the stand-alone page |
| Library.AddKeepsCoherent | main.py:351-365 | add keeps the page coherent |
| Library.AddAgainChangesNothing | main.py:351-365 | a second add of the same title finds the record the first one made or found: no record is added, nothing is written (the file and the write count are unchanged), and the selection stays on it |
| Library.DeleteWithoutSelectionIsNoop | main.py:371-373 | delete with nothing selected changes nothing |
| Library.SaveNotesWithoutSelectionIsNoop | main.py:415-417 | save notes with nothing selected changes nothing: no record changes and nothing is written. `library_page.py:164-166` does the same in the stand-alone page |
| Library.DeleteRemovesSelected | main.py:374-381 | deleting record `i` gives one record fewer: the same records before `i`, later ones moved up by one. It writes the file, drops the selection, empties the title label and editor, and removes entry `i` from the list box. `library_page.py:148-158` does the same in the stand-alone page |
| Library.DeleteKeepsTitlesDistinct | main.py:374-375 | delete keeps titles distinct, and under distinct titles the deleted title is no longer found |
| Library.DeleteKeepsCoherent | main.py:367-381 | delete keeps the page coherent |
| Library.SaveNotesChangesOnlyNotes | main.py:415-420 | saving with record `i` selected sets only record `i`'s notes, to the editor text minus trailing whitespace. Its title, every other record and the list box entries stay as they were, the file is written, and nothing else changes. `library_page.py:164-169` does the same in the stand-alone page |
| Library.SaveNotesKeepsTitlesDistinct | main.py:419 | saving notes never changes whether titles are distinct |
| Library.SaveNotesKeepsCoherent | main.py:411-420 | saving notes keeps the page coherent |
| Library.ClearNotesKeepsCoherent | main.py:422-423 | clearing notes keeps the page coherent |
| Library.ClickKeepsCoherent | main.py:383-396 | a click on an entry keeps the page coherent |
| Library.SelectByTitleKeepsCoherent | main.py:398-409 | selecting by title keeps the page coherent |
| Store.LibraryStore.constructor | library_page.py:10-28 | after construction, the store is the page `Loaded(file)` |
| Store.LibraryStore.Persist | main.py:340-341 | a write leaves the file holding exactly the records in memory, and counts one more write |
| Store.LibraryStore.RefreshList | main.py:343-349 | the loop fills the list box with exactly the records' titles, in order, and the selection is gone. `library_page.py:119-125` does the same in the stand-alone page |
| Store.LibraryStore.IndexOfTitle | main.py:356-357 | the loop over the records returns the first position holding the title, or `None` if there is none |
| Store.LibraryStore.OnDocumentSelect | main.py:383-396 | the handler leaves the page as `Shown` says: the selected record's title and notes, or no change without a selection |
| Store.LibraryStore.Click | main.py:159 | a click on entry `i` leaves the page as `Clicked` says |
| Store.LibraryStore.SelectDocumentByTitle | main.py:398-409 | the loop and the event it raises leave the page as `SelectedByTitle` says |
| Store.LibraryStore.AddDocument | main.py:351-365 | the in-place add leaves the page as `Added` says. `library_page.py:128-142` does the same in the stand-alone page |
| Store.LibraryStore.DeleteDocument | main.py:367-381 | the in-place delete leaves the page as `Deleted` says. `library_page.py:144-158` does the same in the stand-alone page |
| Store.LibraryStore.SaveNotes | main.py:411-420 | the in-place update of the notes leaves the page as `NotesSaved` says. `library_page.py:160-169` does the same in the stand-alone page |
| Store.LibraryStore.ClearNotes | main.py:422-423 | clearing leaves the page as `NotesCleared` says |

## Left out

- Reading and writing `library_data.json` and JSON encoding: the file is the ghost field `persisted`, set to the records on each write, with a write counter beside it. The byte-level round trip through `json.dumps`/`json.loads` is not modelled.
- Loading is modelled only for an absent file, a file with invalid JSON, or a JSON list of objects. Other files are not modelled, and most of them stop the start-up inside `refresh_list` (library_page.py:124-125): a number or `null` cannot be iterated, and a non-empty object, a non-empty string or a list holding a non-object yields elements without `.get`. Undecodable bytes (`UnicodeDecodeError`) and an unreadable file stop it inside `_load_library_data`. An empty JSON object `{}` or an empty string `""` loads as an empty list box. Every add then raises `AttributeError` at `.append` (library_page.py:138); Tk reports it and the page keeps running. Delete and save need a selection, which an empty list box cannot give.
- Keys other than `"title"` and `"notes"` (for example a `"note"` key) are kept by the source in the loaded dictionaries, and every `_persist_library_data` (library_page.py:113-117) writes them back. `Doc` has no place for them, so the model's `persisted` drops them.
- Store.LibraryStore.constructor: models `LibraryPage.__init__` (library_page.py:10-28), and of it only the load and `refresh_list`; the layout and theme set-up are not modelled.
- The start-up of `RelationshipApp` (main.py:13-38) is not modelled. It reads `_library_controls` through `_apply_theme` (main.py:32, :288-291) before main.py:34 assigns it. On a `tk.Tk` subclass that lookup goes to the Tcl interpreter object and raises `AttributeError`, so the window never loads the library.
- Every write of the library file is assumed to succeed. `_persist_library_data` (main.py:340-341, library_page.py:113-117) catches nothing. An `OSError` there escapes add, delete or save after `_library_data` has already changed, and the steps after the write are skipped: the entry clear and refresh (main.py:363-365), or the refresh and the label and editor clears (main.py:377-381). After such a failure the list box no longer matches the records. A later save can then write into the wrong record, or raise `IndexError` if the deleted record was the last one. `Coherent`, and every lemma about `persisted`, rests on this assumption.
- JSON records whose `"title"` or `"notes"` is not a string (a number, `null`, a list) cannot be represented: `Doc` holds either a string or a missing key. The list box, the label and the search would show or compare such values as Python does.
- Widget construction, grid layout, scrollbars, navigation and page switching: presentation only.
- Theme palettes and `_apply_theme`/`_apply_library_theme`/`apply_theme`: constant colour tables passed to Tk.
- placeholder_page.py is not part of this model. It only builds a label.
- The early returns when the list box or the notes editor is missing from the controls dictionary: the page always builds them before any action can run, so the model assumes they exist.
- `listbox.see(index)`, which only scrolls.
- The keyboard editing of the entry field and the notes editor: these are the public fields `entryText` and `editorText`, which a caller sets directly.
