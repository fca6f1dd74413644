/** FilteredTextEdit: the message editor with its input history.  The editor
    keeps the submitted lines (trueHistory, newest first, bounded), an
    editable copy with a scratch slot in front (workingHistory) and a cursor
    into that copy (historyIndex). */
module TextEdit {
  import opened QtString
  import opened InputHistory
  import opened SlashCommand

  datatype Option<T> = None | Some(value: T)

  class FilteredTextEdit {
    /** The editor's plain text (toPlainText()). */
    var text: string
    var trueHistory: seq<string>
    var workingHistory: seq<string>
    var historyIndex: nat
    /** Every non-blank line ever submitted, oldest first. */
    ghost var submitted: seq<string>

    ghost predicate Valid()
      reads this
    {
      trueHistory == Recent(submitted) &&
      |workingHistory| == |trueHistory| + 1 &&
      historyIndex < |workingHistory|
    }

    /** An empty editor whose working history is the single scratch slot. */
    constructor ()
      ensures Valid()
      ensures text == "" && submitted == []
      ensures trueHistory == [] && workingHistory == [""] && historyIndex == 0
    {
      text := "";
      trueHistory := [];
      workingHistory := [""];
      historyIndex := 0;
      submitted := [];
    }

    /** The textChanged slot: the current slot of the working history
        follows the editor's text; nothing else changes. */
    method TextChanged()
      requires Valid()
      modifies this`workingHistory
      ensures Valid()
      ensures workingHistory == old(workingHistory)[historyIndex := text]
    {
      workingHistory := workingHistory[historyIndex := text];
    }

    /** Replacing the editor's text (setPlainText, or clear with ""), which
        emits textChanged. */
    method SetPlainText(t: string)
      requires Valid()
      modifies this`text, this`workingHistory
      ensures Valid()
      ensures text == t
      ensures workingHistory == old(workingHistory)[historyIndex := t]
    {
      text := t;
      TextChanged();
    }

    /** Enter: blank text (white space only) is ignored; otherwise the text
        enters the history, the working copy is rebuilt from it, the editor
        is cleared, and the message or command signal is emitted. */
    method Submit() returns (emitted: Option<Submission>)
      requires Valid()
      modifies this
      ensures Valid()
      ensures Trimmed(old(text)) == "" ==> emitted == None && unchanged(this)
      ensures Trimmed(old(text)) != "" ==>
                emitted == Some(ParseSubmission(old(text))) &&
                submitted == old(submitted) + [old(text)] &&
                trueHistory == Pushed(old(trueHistory), old(text)) &&
                workingHistory == [""] + trueHistory &&
                historyIndex == 0 && text == ""
    {
      if Trimmed(text) == "" {
        return None;
      }
      var line := text;
      if |trueHistory| == InputHistorySize {
        trueHistory := trueHistory[..|trueHistory| - 1];
      }
      trueHistory := [line] + trueHistory;
      RecentAppend(submitted, line);
      submitted := submitted + [line];
      workingHistory := [""] + trueHistory;
      historyIndex := 0;
      emitted := Some(ParseSubmission(line));
      SetPlainText("");
    }

    /** The Up-arrow branch.  When the key press left the cursor where it
        was, at the start of the text, and there is an older slot, the
        cursor moves to that slot and the editor shows it. */
    method KeyUp(cursorUnmoved: bool, cursorAtStart: bool) returns (recalled: bool)
      requires Valid()
      modifies this`historyIndex, this`text, this`workingHistory
      ensures Valid()
      ensures recalled == (cursorUnmoved && cursorAtStart &&
                           old(historyIndex) + 1 < |old(workingHistory)|)
      ensures historyIndex == if recalled then old(historyIndex) + 1 else old(historyIndex)
      ensures workingHistory == old(workingHistory)
      ensures text == if recalled then workingHistory[historyIndex] else old(text)
    {
      recalled := cursorUnmoved && cursorAtStart && historyIndex + 1 < |workingHistory|;
      if recalled {
        historyIndex := historyIndex + 1;
        SetPlainText(workingHistory[historyIndex]);
      }
    }

    /** The Down-arrow branch: the mirror image of KeyUp, towards the
        scratch slot, when the cursor stayed at the end of the text. */
    method KeyDown(cursorUnmoved: bool, cursorAtEnd: bool) returns (recalled: bool)
      requires Valid()
      modifies this`historyIndex, this`text, this`workingHistory
      ensures Valid()
      ensures recalled == (cursorUnmoved && cursorAtEnd && old(historyIndex) > 0)
      ensures historyIndex == if recalled then old(historyIndex) - 1 else old(historyIndex)
      ensures workingHistory == old(workingHistory)
      ensures text == if recalled then workingHistory[historyIndex] else old(text)
    {
      recalled := cursorUnmoved && cursorAtEnd && historyIndex > 0;
      if recalled {
        historyIndex := historyIndex - 1;
        SetPlainText(workingHistory[historyIndex]);
      }
    }
  }
}
