/** The application state of the main window (src/main.py): the current
    table, the undo and redo history, the column chooser and the state of
    the Undo and Redo buttons. Widgets, dialogs and the status log are not
    modelled; dialog answers and file contents are parameters. */
module App {
  import opened PyStr
  import opened Cells
  import opened Tables

  // ------------------------------------------------------ history values

  /** The current table (None when no file is loaded) and the two stacks,
      top last. A stack entry can be None: a failed load leaves the stacks
      alone but sets the current table to None, and an undo afterwards
      pushes that None onto the redo stack. */
  datatype History = History(current: Option<Table>, undo: seq<Option<Table>>, redo: seq<Option<Table>>)

  /** `_commit_undoable_action(old_df)` with the current table unchanged. */
  function Commit(h: History, snapshot: Option<Table>): (r: History)
    ensures r.current == h.current && r.undo == h.undo + [snapshot] && r.redo == []
  {
    History(h.current, h.undo + [snapshot], [])
  }

  /** `undo_action`: nothing when the undo stack is empty; otherwise the
      current table goes onto redo and the top of undo becomes current. */
  function Undo(h: History): (r: History)
    ensures h.undo == [] ==> r == h
    ensures h.undo != [] ==>
              r.current == h.undo[|h.undo| - 1] && r.undo == h.undo[..|h.undo| - 1] && r.redo == h.redo + [h.current]
  {
    if h.undo == [] then h
    else History(h.undo[|h.undo| - 1], h.undo[..|h.undo| - 1], h.redo + [h.current])
  }

  /** `redo_action`, the mirror image of `undo_action`. */
  function Redo(h: History): (r: History)
    ensures h.redo == [] ==> r == h
    ensures h.redo != [] ==>
              r.current == h.redo[|h.redo| - 1] && r.redo == h.redo[..|h.redo| - 1] && r.undo == h.undo + [h.current]
  {
    if h.redo == [] then h
    else History(h.redo[|h.redo| - 1], h.undo + [h.current], h.redo[..|h.redo| - 1])
  }

  /** The commit rule of `apply_operation`: every status except an error
      (Info included) records the table before the operation and makes the
      result current; an error leaves everything as it was. */
  function AfterOperation(h: History, kind: StatusKind, result: Table): (r: History)
  {
    if kind == Error then h else History(Some(result), h.undo + [h.current], [])
  }

  /** The rename path commits only on Success. */
  function AfterRename(h: History, kind: StatusKind, result: Table): (r: History)
  {
    if kind == Success then History(Some(result), h.undo + [h.current], []) else h
  }

  /** Undo then redo gives back the same table and both stacks, and so does
      redo then undo. */
  lemma UndoRedoInverse(h: History)
    ensures h.undo != [] ==> Redo(Undo(h)) == h
    ensures h.redo != [] ==> Undo(Redo(h)) == h
  {
    if h.undo != [] {
      assert Redo(Undo(h)).undo == h.undo[..|h.undo| - 1] + [h.undo[|h.undo| - 1]] == h.undo;
    }
    if h.redo != [] {
      assert Undo(Redo(h)).redo == h.redo[..|h.redo| - 1] + [h.redo[|h.redo| - 1]] == h.redo;
    }
  }

  function UndoTimes(h: History, k: nat): History
  {
    if k == 0 then h else Undo(UndoTimes(h, k - 1))
  }

  function RedoTimes(h: History, k: nat): History
  {
    if k == 0 then h else Redo(RedoTimes(h, k - 1))
  }

  /** k undos take k entries off undo and put k onto redo. */
  lemma {:induction false} UndoTimesShape(h: History, k: nat)
    requires k <= |h.undo|
    ensures |UndoTimes(h, k).undo| == |h.undo| - k && |UndoTimes(h, k).redo| == |h.redo| + k
    ensures UndoTimes(h, k).redo[..|h.redo|] == h.redo
  {
    if k > 0 {
      UndoTimesShape(h, k - 1);
      var g := UndoTimes(h, k - 1);
      assert Undo(g).redo[..|h.redo|] == g.redo[..|h.redo|];
    }
  }

  /** As many redos as there were undos restore the history exactly: the
      table that was current and both stacks. */
  lemma {:induction false} RedoTimesUndoTimes(h: History, k: nat)
    requires k <= |h.undo|
    ensures RedoTimes(UndoTimes(h, k), k) == h
  {
    if k > 0 {
      var g := UndoTimes(h, k - 1);
      UndoTimesShape(h, k - 1);
      UndoRedoInverse(g);
      // RedoTimes(Undo(g), k) == RedoTimes(Redo(Undo(g)), k - 1) == RedoTimes(g, k - 1)
      RedoTimesFirst(Undo(g), k);
      RedoTimesUndoTimes(h, k - 1);
    }
  }

  /** Redoing k times is one redo followed by k - 1 more. */
  lemma {:induction false} RedoTimesFirst(h: History, k: nat)
    requires k > 0
    ensures RedoTimes(h, k) == RedoTimes(Redo(h), k - 1)
  {
    if k > 1 {
      RedoTimesFirst(h, k - 1);
    }
  }

  /** An operation that does not fail is undone by one undo: the table
      before it is current again, its result waits on redo, and the undo
      stack is as it was. A failed operation leaves the history unchanged. */
  lemma AfterOperationSpec(h: History, kind: StatusKind, result: Table)
    ensures kind == Error ==> AfterOperation(h, kind, result) == h
    ensures kind != Error ==>
              AfterOperation(h, kind, result).current == Some(result)
              && AfterOperation(h, kind, result).redo == []
              && Undo(AfterOperation(h, kind, result)) == History(h.current, h.undo, [Some(result)])
  {
    if kind != Error {
      assert (h.undo + [h.current])[..|h.undo|] == h.undo;
    }
  }

  /** A rename is committed only on Success, and one undo reverts it. */
  lemma AfterRenameSpec(h: History, kind: StatusKind, result: Table)
    ensures kind != Success ==> AfterRename(h, kind, result) == h
    ensures kind == Success ==> Undo(AfterRename(h, kind, result)) == History(h.current, h.undo, [Some(result)])
  {
    if kind == Success {
      assert (h.undo + [h.current])[..|h.undo|] == h.undo;
    }
  }

  // ------------------------------------------------------- column chooser

  /** The column `update_column_combobox(preferred)` selects: the preferred
      name if it is given, non-empty and a column; else the first column;
      else nothing. */
  function SelectedFor(names: seq<string>, preferred: Option<string>): (s: string)
  {
    if preferred.Some? && preferred.value != "" && preferred.value in names then preferred.value
    else if |names| > 0 then names[0]
    else ""
  }

  /** `columns.any()`: some column label is truthy, which for names means
      non-empty. */
  predicate AnyTruthy(names: seq<string>)
  {
    exists i :: 0 <= i < |names| && names[i] != ""
  }

  /** The selection is always one of the columns, or empty only when there
      is no column; the preferred column wins whenever it is one. */
  lemma SelectedForSpec(names: seq<string>, preferred: Option<string>)
    ensures var s := SelectedFor(names, preferred);
            (|names| > 0 <==> s in names) && (names == [] ==> s == "")
            && (preferred.Some? && preferred.value != "" && preferred.value in names ==> s == preferred.value)
            && (s != "" && (preferred.None? || preferred.value !in names) ==> s == names[0])
  {
  }

  // ------------------------------------------------------ operation keys

  /** The first key whose translation is `text`, or the KeyError a key
      without a translation raises when it is reached first. */
  function FirstKey(keys: seq<string>, texts: map<string, string>, text: string): (r: Outcome<Option<string>>)
  {
    if keys == [] then Returned(None)
    else if keys[0] !in texts then Raised(KeyError("'" + keys[0] + "'"))
    else if texts[keys[0]] == text then Returned(Some(keys[0]))
    else FirstKey(keys[1..], texts, text)
  }

  /** With every key translated, the result is the first key whose
      translation is the text, and None exactly when no key has it. */
  lemma {:induction false} FirstKeySpec(keys: seq<string>, texts: map<string, string>, text: string)
    requires forall i :: 0 <= i < |keys| ==> keys[i] in texts
    ensures FirstKey(keys, texts, text).Returned?
    ensures FirstKey(keys, texts, text) == Returned(None) <==> forall i :: 0 <= i < |keys| ==> texts[keys[i]] != text
    ensures FirstKey(keys, texts, text).Returned? && FirstKey(keys, texts, text).value.Some? ==>
              exists i :: 0 <= i < |keys| && FirstKey(keys, texts, text).value == Some(keys[i]) && texts[keys[i]] == text
                          && forall j :: 0 <= j < i ==> texts[keys[j]] != text
  {
    if keys != [] {
      FirstKeySpec(keys[1..], texts, text);
      if texts[keys[0]] != text {
        assert forall i :: 1 <= i < |keys| ==> keys[i] == keys[1..][i - 1];
        if FirstKey(keys, texts, text).value.Some? {
          var i :| 0 <= i < |keys[1..]| && FirstKey(keys[1..], texts, text).value == Some(keys[1..][i]) && texts[keys[1..][i]] == text
                   && forall j :: 0 <= j < i ==> texts[keys[1..][j]] != text;
          assert forall j :: 0 <= j < i + 1 ==> texts[keys[j]] != text by {
            forall j | 0 <= j < i + 1 ensures texts[keys[j]] != text {
              if j > 0 { assert keys[j] == keys[1..][j - 1]; }
            }
          }
        }
      }
    }
  }

  /** `get_operation_key(text)`: the loop over the operation keys, returning
      at the first match. */
  method GetOperationKey(keys: seq<string>, texts: map<string, string>, text: string) returns (r: Outcome<Option<string>>)
    ensures r == FirstKey(keys, texts, text)
  {
    for i := 0 to |keys|
      invariant FirstKey(keys[i..], texts, text) == FirstKey(keys, texts, text)
    {
      assert keys[i..][0] == keys[i] && keys[i..][1..] == keys[i + 1..];
      if keys[i] !in texts {
        return Raised(KeyError("'" + keys[i] + "'"));
      }
      if texts[keys[i]] == text {
        return Returned(Some(keys[i]));
      }
    }
    assert keys[|keys|..] == [];
    r := Returned(None);
  }

  // ---------------------------------------------------------- the window

  class TableToolsApp {
    var dataframe: Option<Table>
    var undoStack: seq<Option<Table>>
    var redoStack: seq<Option<Table>>
    var original: Option<Table>
    var columnValues: seq<string>
    var selectedColumn: string
    var selectedOperation: string
    var undoEnabled: bool
    var redoEnabled: bool

    function Snapshot(): History
      reads this
    {
      History(dataframe, undoStack, redoStack)
    }

    /** The buttons are enabled exactly when their stacks are non-empty. */
    predicate ButtonsMatch()
      reads this
    {
      undoEnabled == (undoStack != []) && redoEnabled == (redoStack != [])
    }

    constructor ()
      ensures Snapshot() == History(None, [], []) && ButtonsMatch()
      ensures original == None && columnValues == [] && selectedColumn == "" && selectedOperation == ""
    {
      dataframe := None;
      undoStack := [];
      redoStack := [];
      original := None;
      columnValues := [];
      selectedColumn := "";
      selectedOperation := "";
      undoEnabled := false;
      redoEnabled := false;
    }

    /** `update_undo_redo_buttons`. */
    method UpdateUndoRedoButtons()
      modifies this
      ensures ButtonsMatch() && Snapshot() == old(Snapshot())
      ensures original == old(original) && columnValues == old(columnValues)
      ensures selectedColumn == old(selectedColumn) && selectedOperation == old(selectedOperation)
    {
      undoEnabled := undoStack != [];
      redoEnabled := redoStack != [];
    }

    /** `_commit_undoable_action(old_df)`: one entry pushed onto undo, redo
        emptied, the buttons brought up to date. */
    method CommitUndoableAction(snapshot: Option<Table>)
      modifies this
      ensures Snapshot() == Commit(old(Snapshot()), snapshot) && ButtonsMatch()
      ensures original == old(original) && columnValues == old(columnValues)
      ensures selectedColumn == old(selectedColumn) && selectedOperation == old(selectedOperation)
    {
      undoStack := undoStack + [snapshot];
      redoStack := [];
      UpdateUndoRedoButtons();
    }

    /** `update_column_combobox(preferred_selection)`. */
    method UpdateColumnCombobox(preferred: Option<string>)
      modifies this
      ensures dataframe.Some? ==> columnValues == dataframe.value.names && selectedColumn == SelectedFor(dataframe.value.names, preferred)
      ensures dataframe.None? ==> columnValues == [] && selectedColumn == ""
      ensures Snapshot() == old(Snapshot()) && original == old(original) && selectedOperation == old(selectedOperation)
      ensures undoEnabled == old(undoEnabled) && redoEnabled == old(redoEnabled)
    {
      if dataframe.Some? {
        var cols := dataframe.value.names;
        columnValues := cols;
        if preferred.Some? && preferred.value != "" && preferred.value in cols {
          selectedColumn := preferred.value;
        } else if cols != [] {
          selectedColumn := cols[0];
        } else {
          selectedColumn := "";
        }
      } else {
        columnValues := [];
        selectedColumn := "";
      }
    }

    /** `undo_action`; `done` is false when there was nothing to undo (the
        warning case), and then nothing changes. */
    method UndoAction() returns (done: bool)
      modifies this
      ensures done <==> old(undoStack) != []
      ensures Snapshot() == Undo(old(Snapshot()))
      ensures !done ==> undoEnabled == old(undoEnabled) && redoEnabled == old(redoEnabled)
                        && columnValues == old(columnValues) && selectedColumn == old(selectedColumn)
      ensures done ==> ButtonsMatch()
                       && (dataframe.Some? ==> columnValues == dataframe.value.names
                                               && selectedColumn == SelectedFor(dataframe.value.names, None))
                       && (dataframe.None? ==> columnValues == [] && selectedColumn == "")
      ensures original == old(original) && selectedOperation == old(selectedOperation)
    {
      if undoStack == [] {
        return false;
      }
      redoStack := redoStack + [dataframe];
      var last := undoStack[|undoStack| - 1];
      undoStack := undoStack[..|undoStack| - 1];
      dataframe := last;
      UpdateColumnCombobox(None);
      UpdateUndoRedoButtons();
      done := true;
    }

    /** `redo_action`, the mirror image of `undo_action`. */
    method RedoAction() returns (done: bool)
      modifies this
      ensures done <==> old(redoStack) != []
      ensures Snapshot() == Redo(old(Snapshot()))
      ensures !done ==> undoEnabled == old(undoEnabled) && redoEnabled == old(redoEnabled)
                        && columnValues == old(columnValues) && selectedColumn == old(selectedColumn)
      ensures done ==> ButtonsMatch()
                       && (dataframe.Some? ==> columnValues == dataframe.value.names
                                               && selectedColumn == SelectedFor(dataframe.value.names, None))
                       && (dataframe.None? ==> columnValues == [] && selectedColumn == "")
      ensures original == old(original) && selectedOperation == old(selectedOperation)
    {
      if redoStack == [] {
        return false;
      }
      undoStack := undoStack + [dataframe];
      var next := redoStack[|redoStack| - 1];
      redoStack := redoStack[..|redoStack| - 1];
      dataframe := next;
      UpdateColumnCombobox(None);
      UpdateUndoRedoButtons();
      done := true;
    }

    /** The end of `apply_operation` for the single-column operations:
        `kind` and `result` are what the operation produced on a copy of the
        current table. Without a table nothing happens (the "no file"
        warning); otherwise the commit rule decides, and `refresh` re-reads
        the columns preferring `col`. */
    method FinishOperation(kind: StatusKind, result: Table, refresh: bool, col: string)
      modifies this
      ensures old(dataframe).None? ==> Snapshot() == old(Snapshot()) && columnValues == old(columnValues)
                                       && selectedColumn == old(selectedColumn)
                                       && undoEnabled == old(undoEnabled) && redoEnabled == old(redoEnabled)
      ensures old(dataframe).Some? ==> Snapshot() == AfterOperation(old(Snapshot()), kind, result)
      ensures old(dataframe).Some? && kind != Error ==> ButtonsMatch()
      ensures old(dataframe).Some? && kind == Error ==> undoEnabled == old(undoEnabled) && redoEnabled == old(redoEnabled)
      ensures old(dataframe).Some? && refresh ==>
                dataframe.Some? && columnValues == dataframe.value.names
                && selectedColumn == SelectedFor(dataframe.value.names, Some(col))
      ensures old(dataframe).Some? && !refresh ==> columnValues == old(columnValues) && selectedColumn == old(selectedColumn)
      ensures original == old(original) && selectedOperation == old(selectedOperation)
    {
      if dataframe.None? {
        return;
      }
      if kind != Error {
        CommitUndoableAction(dataframe);
        dataframe := Some(result);
      }
      if refresh {
        UpdateColumnCombobox(Some(col));
      }
    }

    /** The rename branch of `apply_operation`: committed only on Success,
        and then the renamed column is selected. */
    method FinishRename(kind: StatusKind, result: Table, newName: string)
      modifies this
      ensures old(dataframe).None? ==> Snapshot() == old(Snapshot()) && columnValues == old(columnValues)
                                       && selectedColumn == old(selectedColumn)
      ensures old(dataframe).Some? ==> Snapshot() == AfterRename(old(Snapshot()), kind, result)
      ensures old(dataframe).Some? && kind == Success ==>
                ButtonsMatch() && columnValues == result.names && selectedColumn == SelectedFor(result.names, Some(newName))
      ensures kind != Success ==> columnValues == old(columnValues) && selectedColumn == old(selectedColumn)
                                  && undoEnabled == old(undoEnabled) && redoEnabled == old(redoEnabled)
      ensures original == old(original) && selectedOperation == old(selectedOperation)
    {
      if dataframe.None? {
        return;
      }
      if kind == Success {
        CommitUndoableAction(dataframe);
        dataframe := Some(result);
        UpdateColumnCombobox(Some(newName));
      }
    }

    /** `load_excel` on a selected path whose reading gives `read`. An empty
        path does nothing. A successful read makes the table current and
        the history exactly one baseline entry with redo empty; a failed one
        clears the table and the chooser but leaves the history. */
    method LoadExcel(path: string, read: Outcome<Table>)
      modifies this
      ensures path == "" ==> Snapshot() == old(Snapshot()) && columnValues == old(columnValues)
                             && selectedColumn == old(selectedColumn) && selectedOperation == old(selectedOperation)
      ensures path != "" && read.Returned? ==>
                Snapshot() == History(Some(read.value), [Some(read.value)], []) && ButtonsMatch()
                && original == Some(read.value) && columnValues == read.value.names
                && (AnyTruthy(read.value.names) ==> selectedColumn == read.value.names[0])
                && (!AnyTruthy(read.value.names) ==> selectedColumn == old(selectedColumn))
                && selectedOperation == old(selectedOperation)
      ensures path != "" && read.Raised? ==>
                Snapshot() == History(None, old(undoStack), old(redoStack)) && undoEnabled == old(undoEnabled)
                && redoEnabled == old(redoEnabled) && original == old(original)
                && columnValues == [] && selectedColumn == "" && selectedOperation == ""
    {
      if path == "" {
        return;
      }
      match read
      case Returned(t) =>
        dataframe := Some(t);
        undoStack := [];
        redoStack := [];
        CommitUndoableAction(Some(t));
        original := Some(t);
        columnValues := t.names;
        if exists i :: 0 <= i < |t.names| && t.names[i] != "" {
          selectedColumn := t.names[0];
        }
      case Raised(_) =>
        dataframe := None;
        columnValues := [];
        selectedColumn := "";
        selectedOperation := "";
    }

    /** `refresh_app`: no table, empty history, disabled buttons, nothing
        selected. */
    method RefreshApp()
      modifies this
      ensures Snapshot() == History(None, [], []) && ButtonsMatch() && !undoEnabled && !redoEnabled
      ensures columnValues == [] && selectedColumn == "" && selectedOperation == "" && original == old(original)
    {
      dataframe := None;
      selectedColumn := "";
      columnValues := [];
      selectedOperation := "";
      undoStack := [];
      redoStack := [];
      UpdateUndoRedoButtons();
    }
  }
}
