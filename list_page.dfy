/** The List page (List.jsx): a store of saved mailing lists and the working state around it
    (the imported or opened list shown in the preview panel, its reports, the list name being
    typed, the page mode and the cell editor). Each handler becomes a method that updates the
    fields its `set...` calls update. */
module ListPage {
  import opened Base
  import opened Text
  import opened Records
  import opened Csv
  import opened EmailFilter

  /** One saved list. A list saved by "Save Changes" has no reports any more: `None` stands for the
      missing `duplicates` and `blocked` properties. */
  datatype SavedList = SavedList(
    name: string, data: seq<Record>, duplicates: Option<seq<string>>, blocked: Option<seq<string>>)

  /** `mode`: `null`, "new", "preview" or "edit". */
  datatype Mode = NoMode | New | Preview | Edit

  /** `cellEditor`: the modal that edits one cell of the preview. */
  datatype CellEditor = CellEditor(open: bool, row: Option<nat>, col: Option<string>, value: string)

  const ClosedEditor := CellEditor(false, None, None, "")

  /** `cp.splice(idx, 1)`: removes the element at `idx`, or nothing when `idx` is past the end. */
  function RemoveAt<T>(s: seq<T>, idx: nat): (r: seq<T>)
    ensures idx < |s| ==> |r| == |s| - 1
    ensures idx >= |s| ==> r == s
    ensures forall k :: 0 <= k < idx && k < |r| ==> r[k] == s[k]
    ensures forall k :: idx <= k < |r| ==> r[k] == s[k + 1]
  {
    if idx < |s| then s[..idx] + s[idx + 1..] else s
  }

  /** The columns shown for a saved list: the keys of its first record, in order, without the id
      column; no columns for an empty list. */
  function Columns(data: seq<Record>): (r: seq<string>)
    ensures data == [] ==> r == []
    ensures data != [] ==> IsSubsequence(r, Keys(data[0]))
    ensures data != [] ==> forall h :: h in r <==> h in Keys(data[0]) && !IsIdColumn(h)
    ensures data != [] ==> |r| + IdCount(Keys(data[0])) == |Keys(data[0])|
  {
    if data == [] then [] else DisplayHeaders(Keys(data[0]))
  }

  /** What importing a file yields: the parse error, or the three outputs of the filtering pass
      against the fixed blocked list. */
  function Import(text: string): Result<Outcome, string> {
    match ParseCsv(text)
    case Err(e) => Err(e)
    case Ok(t) => Ok(Classify(t.rows, t.emailKey, BlockedSet(StaticBlockedEmails), |t.rows|))
  }

  /** `processCSV` from the parsed text on: the parse, then the filtering pass. */
  method ProcessCsv(text: string) returns (r: Result<Outcome, string>)
    ensures r == Import(text)
  {
    match ParseCsv(text)
    case Err(e) =>
      r := Err(e);
    case Ok(t) =>
      var unique, duplicates, blocked := FilterEmails(t.rows, t.emailKey, StaticBlockedEmails);
      r := Ok(Outcome(unique, duplicates, blocked));
  }

  /** When every row has the same keys, the columns shown for the kept rows are those keys
      without the id column. */
  lemma ColumnsOfKept(rows: seq<Record>, key: string, blocked: set<string>, keys: seq<string>)
    requires forall j :: 0 <= j < |rows| ==> Keys(rows[j]) == keys
    requires Classify(rows, key, blocked, |rows|).unique != []
    ensures Columns(Classify(rows, key, blocked, |rows|).unique) == DisplayHeaders(keys)
  {
    var u := Classify(rows, key, blocked, |rows|).unique;
    var idx := ClassifyUniqueRows(rows, key, blocked, |rows|);
    assert u[0] == rows[idx[0]];
  }

  /** Opening a saved list that was imported from a file with distinct headers shows the same
      columns that the import showed. */
  lemma ColumnsAfterImport(text: string)
    requires ParseCsv(text).Ok? && Import(text).value.unique != []
    requires var hs := ParseCsv(text).value.headers;
      forall i, j :: 0 <= i < j < |hs| ==> hs[i] != hs[j]
    ensures Columns(Import(text).value.unique) == DisplayHeaders(ParseCsv(text).value.headers)
  {
    var t := ParseCsv(text).value;
    forall j | 0 <= j < |t.rows| ensures Keys(t.rows[j]) == t.headers {
      ParsedRowKeys(text, j);
    }
    ColumnsOfKept(t.rows, t.emailKey, BlockedSet(StaticBlockedEmails), t.headers);
  }

  /* The saved lists in `localStorage`, under "mySavedLists": `None` until first written. The
     JSON encoding is left out: what is written is what is read back. */

  /** The lists the page mounts with: the stored ones, or none when nothing was ever stored. */
  function LoadLists(store: Option<seq<SavedList>>): (r: seq<SavedList>)
    ensures store.None? ==> r == []
    ensures store.Some? ==> r == store.value
  {
    store.GetOr([])
  }

  /** The storage after the effect that runs whenever the lists change, as written: an empty
      array of lists is never written. */
  function PersistAsWritten(lists: seq<SavedList>, store: Option<seq<SavedList>>): Option<seq<SavedList>> {
    if |lists| > 0 then Some(lists) else store
  }

  /** Deleting the only saved list is not persisted: after a reload, the deleted list is back. */
  lemma DeletedLastListReturns(only: SavedList)
    ensures RemoveAt([only], 0) == []
    ensures LoadLists(PersistAsWritten(RemoveAt([only], 0), Some([only]))) == [only]
  {
  }

  /** The storage after the effect, writing the lists whatever their number. */
  function Persist(lists: seq<SavedList>, store: Option<seq<SavedList>>): Option<seq<SavedList>> {
    Some(lists)
  }

  /** With every change written, a reload always gives back the lists as they were last left;
      the effect as written agrees with it as long as some list is left. */
  lemma PersistReload(lists: seq<SavedList>, store: Option<seq<SavedList>>)
    ensures LoadLists(Persist(lists, store)) == lists
    ensures |lists| > 0 ==> PersistAsWritten(lists, store) == Persist(lists, store)
  {
  }

  class ListPage {
    var lists: seq<SavedList>
    /** What `localStorage` holds under "mySavedLists", kept by the save effect that runs after
        every change of the lists, as that effect is written. */
    var store: Option<seq<SavedList>>
    var showNamePrompt: bool
    var listName: string
    /** The name of the file or list shown in the preview; `None` for `null`. */
    var selectedFile: Option<string>
    var previewData: seq<Record>
    var headers: seq<string>
    var mode: Mode
    var editingIndex: Option<nat>
    var cellEditor: CellEditor
    var duplicateEmails: Option<seq<string>>
    var blockedEmails: Option<seq<string>>

    /** The page keeps these in step: the preview and edit modes are entered with the index of an
        existing list, and leaving them is the only way a list can be deleted; the cell editor is
        only ever opened on a cell. */
    predicate Valid()
      reads this
    {
      && ((mode == Edit || mode == Preview) ==> editingIndex.Some? && editingIndex.value < |lists|)
      && (cellEditor.open ==> cellEditor.row.Some? && cellEditor.col.Some?)
      && (|lists| > 0 ==> store == Some(lists))
    }

    /** Mounting the page with `stored` in storage: the lists are read back from it. */
    constructor (stored: Option<seq<SavedList>>)
      ensures Valid()
      ensures lists == LoadLists(stored) && store == stored
      ensures !showNamePrompt && listName == "" && selectedFile == None
      ensures previewData == [] && headers == [] && mode == NoMode && editingIndex == None
      ensures cellEditor == ClosedEditor && duplicateEmails == Some([]) && blockedEmails == Some([])
    {
      lists := LoadLists(stored);
      store := stored;
      showNamePrompt := false;
      listName := "";
      selectedFile := None;
      previewData := [];
      headers := [];
      mode := NoMode;
      editingIndex := None;
      cellEditor := ClosedEditor;
      duplicateEmails := Some([]);
      blockedEmails := Some([]);
    }

    /** `handleClearCSV`: drops the file, the preview, its reports and the typed name. */
    method ClearCsv()
      requires Valid()
      modifies this
      ensures Valid()
      ensures selectedFile == None && previewData == [] && headers == []
      ensures duplicateEmails == Some([]) && blockedEmails == Some([]) && listName == "" && mode == NoMode
      ensures lists == old(lists) && store == old(store) && showNamePrompt == old(showNamePrompt)
      ensures editingIndex == old(editingIndex) && cellEditor == old(cellEditor)
    {
      selectedFile := None;
      previewData := [];
      headers := [];
      duplicateEmails := Some([]);
      blockedEmails := Some([]);
      listName := "";
      mode := NoMode;
    }

    /** `handleFileChange` followed by `processCSV`: clears the page, then for a CSV file shows the
        non-id headers, and when the file has an email column, the retained rows and both
        reports, in "new" mode. A file that is not CSV, or has no email column, leaves the page
        cleared (apart from the headers of the latter). */
    method ImportFile(isCsv: bool, fileName: string, text: string)
      requires Valid()
      modifies this
      ensures Valid()
      ensures lists == old(lists) && store == old(store) && showNamePrompt == old(showNamePrompt) && listName == ""
      ensures editingIndex == old(editingIndex) && cellEditor == old(cellEditor)
      ensures !isCsv ==>
        && selectedFile == None && previewData == [] && headers == [] && mode == NoMode
        && duplicateEmails == Some([]) && blockedEmails == Some([])
      ensures isCsv ==> headers == DisplayHeaders(HeaderRow(text))
      ensures isCsv && Import(text).Err? ==>
        && selectedFile == None && previewData == [] && mode == NoMode
        && duplicateEmails == Some([]) && blockedEmails == Some([])
      ensures isCsv && Import(text).Ok? ==>
        && previewData == Import(text).value.unique
        && duplicateEmails == Some(Import(text).value.duplicates)
        && blockedEmails == Some(Import(text).value.blocked)
        && selectedFile == Some(fileName) && mode == New
    {
      ClearCsv();
      if !isCsv {
        return;
      }
      var result := ProcessCsv(text);
      ShowImport(fileName, DisplayHeaders(HeaderRow(text)), result);
    }

    /** The state updates `processCSV` makes once the file is read: the headers in every case,
        the outputs and "new" mode when the parse succeeded. */
    method ShowImport(fileName: string, shown: seq<string>, result: Result<Outcome, string>)
      requires Valid()
      modifies this
      ensures Valid()
      ensures headers == shown
      ensures result.Ok? ==>
        && previewData == result.value.unique
        && duplicateEmails == Some(result.value.duplicates)
        && blockedEmails == Some(result.value.blocked)
        && selectedFile == Some(fileName) && mode == New
      ensures result.Err? ==>
        && previewData == old(previewData) && duplicateEmails == old(duplicateEmails)
        && blockedEmails == old(blockedEmails) && selectedFile == old(selectedFile) && mode == old(mode)
      ensures lists == old(lists) && store == old(store) && showNamePrompt == old(showNamePrompt) && listName == old(listName)
      ensures editingIndex == old(editingIndex) && cellEditor == old(cellEditor)
    {
      headers := shown;
      if result.Ok? {
        duplicateEmails := Some(result.value.duplicates);
        blockedEmails := Some(result.value.blocked);
        previewData := result.value.unique;
        selectedFile := Some(fileName);
        mode := New;
      }
    }

    /** `handleCreateClick`: opens the name prompt. */
    method CreateClick()
      modifies this
      ensures showNamePrompt
      ensures lists == old(lists) && store == old(store) && listName == old(listName) && previewData == old(previewData)
      ensures mode == old(mode) && editingIndex == old(editingIndex) && cellEditor == old(cellEditor)
      ensures selectedFile == old(selectedFile) && headers == old(headers)
      ensures duplicateEmails == old(duplicateEmails) && blockedEmails == old(blockedEmails)
    {
      showNamePrompt := true;
    }

    /** "Cancel" in the name prompt closes it and keeps the typed name and everything else. */
    method CancelNamePrompt()
      modifies this
      ensures !showNamePrompt
      ensures lists == old(lists) && store == old(store) && listName == old(listName) && previewData == old(previewData)
      ensures mode == old(mode) && editingIndex == old(editingIndex) && cellEditor == old(cellEditor)
      ensures selectedFile == old(selectedFile) && headers == old(headers)
      ensures duplicateEmails == old(duplicateEmails) && blockedEmails == old(blockedEmails)
    {
      showNamePrompt := false;
    }

    /** Typing in the list-name field. */
    method TypeListName(name: string)
      modifies this
      ensures listName == name
      ensures lists == old(lists) && store == old(store) && showNamePrompt == old(showNamePrompt) && previewData == old(previewData)
      ensures mode == old(mode) && editingIndex == old(editingIndex) && cellEditor == old(cellEditor)
      ensures selectedFile == old(selectedFile) && headers == old(headers)
      ensures duplicateEmails == old(duplicateEmails) && blockedEmails == old(blockedEmails)
    {
      listName := name;
    }

    /** `handleSaveList`: a name that is empty or only white space changes nothing; otherwise the
        preview and its reports are appended as a new list under the name as typed, every
        existing list staying as it was, and the page is cleared. */
    method SaveList()
      requires Valid()
      modifies this
      ensures Valid()
      ensures Trim(old(listName)) == [] ==> unchanged(this)
      ensures Trim(old(listName)) != [] ==>
        && lists == old(lists) + [SavedList(old(listName), old(previewData), old(duplicateEmails), old(blockedEmails))]
        && store == PersistAsWritten(lists, old(store))
        && !showNamePrompt && listName == "" && selectedFile == None && previewData == [] && headers == []
        && duplicateEmails == Some([]) && blockedEmails == Some([]) && mode == NoMode
        && editingIndex == old(editingIndex) && cellEditor == old(cellEditor)
    {
      if Trim(listName) == [] {
        return;
      }
      lists := lists + [SavedList(listName, previewData, duplicateEmails, blockedEmails)];
      store := PersistAsWritten(lists, store);
      showNamePrompt := false;
      listName := "";
      ClearCsv();
    }

    /** `handlePreviewList`: shows saved list `idx` read-only, with its reports. */
    method PreviewList(idx: nat)
      requires Valid() && idx < |lists|
      modifies this
      ensures Valid()
      ensures selectedFile == Some(old(lists)[idx].name) && headers == Columns(old(lists)[idx].data)
      ensures previewData == old(lists)[idx].data
      ensures duplicateEmails == old(lists)[idx].duplicates && blockedEmails == old(lists)[idx].blocked
      ensures mode == Preview && editingIndex == Some(idx)
      ensures lists == old(lists) && store == old(store) && listName == old(listName) && showNamePrompt == old(showNamePrompt)
      ensures cellEditor == old(cellEditor)
    {
      var lst := lists[idx];
      selectedFile := Some(lst.name);
      headers := Columns(lst.data);
      previewData := lst.data;
      duplicateEmails := lst.duplicates;
      blockedEmails := lst.blocked;
      mode := Preview;
      editingIndex := Some(idx);
    }

    /** `handleEditList`: opens saved list `idx` for editing under its name. The reports shown
        are left as they were: they are not those of the list being edited. */
    method EditList(idx: nat)
      requires Valid() && idx < |lists|
      modifies this
      ensures Valid()
      ensures listName == old(lists)[idx].name && selectedFile == Some(old(lists)[idx].name)
      ensures headers == Columns(old(lists)[idx].data) && previewData == old(lists)[idx].data
      ensures mode == Edit && editingIndex == Some(idx)
      ensures duplicateEmails == old(duplicateEmails) && blockedEmails == old(blockedEmails)
      ensures lists == old(lists) && store == old(store) && showNamePrompt == old(showNamePrompt) && cellEditor == old(cellEditor)
    {
      var lst := lists[idx];
      listName := lst.name;
      selectedFile := Some(lst.name);
      headers := Columns(lst.data);
      previewData := lst.data;
      mode := Edit;
      editingIndex := Some(idx);
    }

    /** `handleDeleteList`, `confirmed` being the answer to the confirmation dialog: a confirmed
        delete removes exactly list `idx` and clears the page; otherwise nothing changes. */
    method DeleteList(idx: nat, confirmed: bool)
      requires Valid()
      modifies this
      ensures Valid()
      ensures !confirmed ==> unchanged(this)
      ensures confirmed ==>
        && lists == RemoveAt(old(lists), idx) && store == PersistAsWritten(lists, old(store))
        && selectedFile == None && previewData == [] && headers == [] && listName == "" && mode == NoMode
        && duplicateEmails == Some([]) && blockedEmails == Some([])
        && showNamePrompt == old(showNamePrompt) && editingIndex == old(editingIndex)
        && cellEditor == old(cellEditor)
    {
      if confirmed {
        lists := RemoveAt(lists, idx);
        store := PersistAsWritten(lists, store);
        mode := NoMode;
        ClearCsv();
      }
    }

    /** `handleCancel`: clears the page and forgets which list was open. */
    method Cancel()
      requires Valid()
      modifies this
      ensures Valid()
      ensures selectedFile == None && previewData == [] && headers == [] && listName == "" && mode == NoMode
      ensures duplicateEmails == Some([]) && blockedEmails == Some([]) && editingIndex == None
      ensures lists == old(lists) && store == old(store) && showNamePrompt == old(showNamePrompt) && cellEditor == old(cellEditor)
    {
      ClearCsv();
      editingIndex := None;
    }

    /** `handleSaveChanges`, offered only in edit mode: a blank name changes nothing; otherwise
        the list being edited, and no other, is replaced by the name and the rows as edited, and
        its reports are lost. */
    method SaveChanges()
      requires Valid() && mode == Edit
      modifies this
      ensures Valid()
      ensures Trim(old(listName)) == [] ==> unchanged(this)
      ensures Trim(old(listName)) != [] ==>
        && |lists| == |old(lists)|
        && lists[old(editingIndex).value] == SavedList(old(listName), old(previewData), None, None)
        && (forall k :: 0 <= k < |lists| && k != old(editingIndex).value ==> lists[k] == old(lists)[k])
        && store == PersistAsWritten(lists, old(store))
        && selectedFile == None && previewData == [] && headers == [] && listName == "" && mode == NoMode
        && duplicateEmails == Some([]) && blockedEmails == Some([]) && editingIndex == None
        && showNamePrompt == old(showNamePrompt) && cellEditor == old(cellEditor)
    {
      if Trim(listName) == [] {
        return;
      }
      lists := lists[editingIndex.value := SavedList(listName, previewData, None, None)];
      store := PersistAsWritten(lists, store);
      listName := "";
      Cancel();
    }

    /** `handleCellClick`: in "new" and "edit" mode, opens the cell editor on the cell under
        column `col` of preview row `row`, holding its current value; otherwise nothing. */
    method CellClick(row: nat, col: string)
      requires Valid() && row < |previewData|
      modifies this
      ensures Valid()
      ensures mode != New && mode != Edit ==> unchanged(this)
      ensures (mode == New || mode == Edit) ==>
        cellEditor == CellEditor(true, Some(row), Some(col), Get(old(previewData)[row], col).GetOr(""))
      ensures lists == old(lists) && store == old(store) && previewData == old(previewData) && mode == old(mode)
      ensures listName == old(listName) && headers == old(headers) && editingIndex == old(editingIndex)
      ensures selectedFile == old(selectedFile) && showNamePrompt == old(showNamePrompt)
      ensures duplicateEmails == old(duplicateEmails) && blockedEmails == old(blockedEmails)
    {
      if !(mode == Edit || mode == New) {
        return;
      }
      cellEditor := CellEditor(true, Some(row), Some(col), Get(previewData[row], col).GetOr(""));
    }

    /** Typing in the cell editor. */
    method TypeCellValue(value: string)
      requires Valid()
      modifies this
      ensures Valid()
      ensures cellEditor == old(cellEditor).(value := value)
      ensures lists == old(lists) && store == old(store) && previewData == old(previewData) && mode == old(mode)
      ensures listName == old(listName) && headers == old(headers) && editingIndex == old(editingIndex)
      ensures selectedFile == old(selectedFile) && showNamePrompt == old(showNamePrompt)
      ensures duplicateEmails == old(duplicateEmails) && blockedEmails == old(blockedEmails)
    {
      cellEditor := cellEditor.(value := value);
    }

    /** Cancel in the cell editor: the editor closes, keeping the cell it was on and the value
        typed. */
    method CancelCell()
      requires Valid()
      modifies this`cellEditor
      ensures Valid()
      ensures cellEditor == old(cellEditor).(open := false)
    {
      cellEditor := cellEditor.(open := false);
    }

    /** `handleCellUpdate`, offered only while the editor is open: writes the edited value under
        its column in its row, leaving every other row, and every other column of that row, as it
        was, and closes the editor. */
    method CellUpdate()
      requires Valid() && cellEditor.open && cellEditor.row.value < |previewData|
      modifies this
      ensures Valid()
      ensures var row, col := old(cellEditor.row.value), old(cellEditor.col.value);
        && |previewData| == |old(previewData)|
        && previewData[row] == Set(old(previewData)[row], col, old(cellEditor.value))
        && Get(previewData[row], col) == Some(old(cellEditor.value))
        && (forall other :: other != col ==> Get(previewData[row], other) == Get(old(previewData)[row], other))
        && (forall k :: 0 <= k < |previewData| && k != row ==> previewData[k] == old(previewData)[k])
      ensures cellEditor == ClosedEditor
      ensures lists == old(lists) && store == old(store) && mode == old(mode) && listName == old(listName) && headers == old(headers)
      ensures editingIndex == old(editingIndex) && selectedFile == old(selectedFile)
      ensures showNamePrompt == old(showNamePrompt)
      ensures duplicateEmails == old(duplicateEmails) && blockedEmails == old(blockedEmails)
    {
      var row, col, value := cellEditor.row.value, cellEditor.col.value, cellEditor.value;
      var before := previewData[row];
      GetSetSame(before, col, value);
      forall other | other != col
        ensures Get(Set(before, col, value), other) == Get(before, other)
      {
        GetSetOther(before, col, other, value);
      }
      previewData := previewData[row := Set(before, col, value)];
      cellEditor := ClosedEditor;
    }
  }
}
