/** The list/detail/create screen machine (internal/tui/model.go). Reading,
    saving and listing notes are done by the storage layer; their outcomes
    are inputs here. */
module ListView {
  import opened Wrappers
  import opened Text
  import IA = InputArea

  datatype View = ListView | DetailView | CreateView

  /** A listing of note titles as the storage layer returns it: the titles,
      and an error when listing failed. */
  datatype Listing = Listing(notes: seq<string>, err: Option<string>)

  datatype Model = Model(
    notes: seq<string>,
    cursor: int,
    currentView: View,
    selectedNoteContent: string,
    newNoteTitle: string,
    newNoteContent: string,
    errorMessage: string,
    inputArea: IA.InputArea)

  /** A key press (with the key's name, as the program matches it) or a
      submission from the editor, with the storage outcomes it needs. */
  datatype Msg =
    | KeyPress(k: IA.Key, read: Result<string>)
    | WindowSize
    | SubmitMsg(text: string, saveErr: Option<string>, reload: Listing)

  datatype Cmd = NoCmd | QuitCmd | EditorCmd(c: IA.Cmd)

  /** The note a submission hands to the storage layer (`note.NewNote`
      with no tags). */
  datatype Draft = Draft(title: string, content: string)

  /** A step: the next model, the command, and the note saved during the
      step, if any. */
  datatype Step = Step(m: Model, cmd: Cmd, saved: Option<Draft>)

  const TitleRequired: string := "筆記標題不能為空"

  /** The name a key press goes by. */
  function KeyName(k: IA.Key): string {
    match k
    case Runes(rs) => rs
    case Backspace => "backspace"
    case Left => "left"
    case Right => "right"
    case Enter => "enter"
    case CtrlJ => "ctrl+j"
    case Up => "up"
    case Down => "down"
    case Esc => "esc"
    case CtrlC => "ctrl+c"
    case OtherKey(name) => name
  }

  /** The cursor is a row of the list, or 0 for an empty list. */
  predicate CursorOk(m: Model) {
    0 <= m.cursor && (m.cursor < |m.notes| || m.cursor == 0)
  }

  /** Every part of the state the machine relies on. */
  predicate Valid(m: Model) {
    CursorOk(m) && IA.Valid(m.inputArea)
  }

  /** `InitialModel`: the list view over the listed notes, or the error
      screen when listing failed. */
  function InitialModel(l: Listing): (r: Model)
    ensures Valid(r) && r.currentView == ListView && r.cursor == 0
    ensures l.err.None? <==> r.errorMessage == ""
    ensures l.err.None? ==> r.notes == l.notes
    ensures l.err.Some? ==> r.notes == []
  {
    var ia := IA.NewInputArea();
    match l.err
    case Some(e) => Model([], 0, ListView, "", "", "", "Failed to load notes: " + e, ia)
    case None => Model(l.notes, 0, ListView, "", "", "", "", ia)
  }

  /** The `switch` on the key name, before the editor sees the key. */
  function Navigate(m: Model, k: IA.Key, read: Result<string>): (r: Model)
    ensures r.notes == m.notes && r.inputArea == m.inputArea
    ensures CursorOk(m) ==> CursorOk(r)
  {
    var name := KeyName(k);
    if name == "up" || name == "k" then
      if m.currentView == ListView && m.cursor > 0 then m.(cursor := m.cursor - 1) else m
    else if name == "down" || name == "j" then
      if m.currentView == ListView && m.cursor < |m.notes| - 1 then m.(cursor := m.cursor + 1) else m
    else if name == "enter" then
      if m.currentView == ListView && |m.notes| > 0 then
        match read
        case Err(e) => m.(errorMessage := "Failed to read note: " + e)
        case Ok(content) => m.(selectedNoteContent := content, currentView := DetailView)
      else m
    else if name == "esc" then
      if m.currentView == DetailView then m.(currentView := ListView, selectedNoteContent := "")
      else if m.currentView == CreateView then m.(currentView := ListView)
      else m
    else if name == "n" then
      if m.currentView == ListView then m.(currentView := CreateView, newNoteTitle := "", newNoteContent := "")
      else m
    else m
  }

  /** `ctrl+c` and `q` quit from every view. */
  predicate IsQuitKey(k: IA.Key) {
    KeyName(k) == "ctrl+c" || KeyName(k) == "q"
  }

  /** The first line of a submission, trimmed, is the title; the other
      lines, untrimmed, are the content. */
  function SplitSubmission(text: string): (r: (string, string))
    ensures Trimmed(r.0) && '\n' !in r.0
  {
    var lines := Split(text, '\n');
    TrimSpaceAvoids(lines[0], '\n');
    (TrimSpace(lines[0]), Join(lines[1..], "\n"))
  }

  /** A submission is its first line, a line break and the rest: the title
      is the trimmed first line and the content is the rest as typed. */
  lemma SubmissionParts(first: string, body: string)
    requires '\n' !in first
    ensures SplitSubmission(first + "\n" + body) == (TrimSpace(first), body)
  {
    var text := first + ("\n" + body);
    assert first + "\n" + body == text;
    RunOfFree(first, "\n" + body, '\n');
    assert text[..|first|] == first && text[|first| + 1..] == body;
    assert Split(text, '\n') == [first] + Split(body, '\n');
    assert ([first] + Split(body, '\n'))[1..] == Split(body, '\n');
    JoinSplit(body, '\n');
  }

  /** A one-line submission is all title. */
  lemma SubmissionOneLine(first: string)
    requires '\n' !in first
    ensures SplitSubmission(first) == (TrimSpace(first), "")
  {
    RunOfFree(first, "", '\n');
    assert first + "" == first;
  }

  /** The note the `SubmitMsg` branch saves: none for a blank title. */
  function SubmittedDraft(text: string): Option<Draft> {
    var parts := SplitSubmission(text);
    if parts.0 == "" then None else Some(Draft(parts.0, parts.1))
  }

  /** The `SubmitMsg` branch: a blank title is refused; otherwise the note is
      saved, the list reloaded and the editor reset. */
  function Submit(m: Model, text: string, saveErr: Option<string>, reload: Listing): (r: Model)
    ensures r.cursor == m.cursor
    ensures r.notes == m.notes || r.notes == reload.notes
    ensures SplitSubmission(text).0 == "" ==> r == m.(errorMessage := TitleRequired)
    ensures SplitSubmission(text).0 != "" && saveErr.None? && reload.err.None? ==>
      r == m.(notes := reload.notes, currentView := ListView, inputArea := IA.NewInputArea())
    ensures !(SplitSubmission(text).0 != "" && saveErr.None? && reload.err.None?) ==>
      r.errorMessage != "" && r.currentView == m.currentView && r.inputArea == m.inputArea
  {
    var parts := SplitSubmission(text);
    if parts.0 == "" then m.(errorMessage := TitleRequired)
    else match saveErr
      case Some(e) => m.(errorMessage := "儲存筆記失敗: " + e)
      case None =>
        var m2 := m.(notes := reload.notes);
        match reload.err
        case Some(e) => m2.(errorMessage := "重新載入筆記失敗: " + e)
        case None => m2.(currentView := ListView, inputArea := IA.NewInputArea())
  }

  /** Enter in a non-empty list reads the title under the cursor, which
      must be a row: the program indexes the list with it. */
  predicate ReadsRow(m: Model, msg: Msg) {
    msg.KeyPress? && !IsQuitKey(msg.k) && KeyName(msg.k) == "enter"
    && m.currentView == ListView && |m.notes| > 0
  }

  /** `model.Update`. In the create view every key press other than quit
      (including the `n` that opened it) also goes to the editor. */
  function Update(m: Model, msg: Msg): (r: Step)
    requires IA.Valid(m.inputArea)
    requires ReadsRow(m, msg) ==> 0 <= m.cursor < |m.notes|
    ensures r.cmd == QuitCmd <==> msg.KeyPress? && IsQuitKey(msg.k)
    ensures msg.KeyPress? ==> IA.Valid(r.m.inputArea) && r.m.notes == m.notes
    ensures msg.KeyPress? && CursorOk(m) ==> CursorOk(r.m)
    ensures !msg.SubmitMsg? ==> r.saved.None?
    ensures msg.SubmitMsg? ==> (r.saved.Some? <==> SplitSubmission(msg.text).0 != "")
    ensures msg.SubmitMsg? && r.saved.Some? ==>
      r.saved.value == Draft(SplitSubmission(msg.text).0, SplitSubmission(msg.text).1)
  {
    match msg
    case KeyPress(k, read) =>
      if IsQuitKey(k) then Step(m, QuitCmd, None)
      else
        var m2 := Navigate(m, k, read);
        if m2.currentView == CreateView then
          var s := IA.Update(m2.inputArea, k);
          Step(m2.(inputArea := s.ia), EditorCmd(s.cmd), None)
        else Step(m2, NoCmd, None)
    case WindowSize => Step(m, NoCmd, None)
    case SubmitMsg(text, saveErr, reload) => Step(Submit(m, text, saveErr, reload), NoCmd, SubmittedDraft(text))
  }

  /** Up and down move the list cursor by one and stop at either end. */
  lemma CursorMoves(m: Model, read: Result<string>)
    requires Valid(m) && m.currentView == ListView
    ensures Update(m, KeyPress(IA.Up, read)).m.cursor == (if m.cursor > 0 then m.cursor - 1 else m.cursor)
    ensures Update(m, KeyPress(IA.Down, read)).m.cursor == (if m.cursor < |m.notes| - 1 then m.cursor + 1 else m.cursor)
  {
  }

  /** `n` opens the create view with an empty draft and is typed into the
      editor as well. */
  lemma NewNoteKey(m: Model, read: Result<string>)
    requires Valid(m) && m.currentView == ListView
    ensures var r := Update(m, KeyPress(IA.Runes("n"), read)).m;
      && r.currentView == CreateView && r.newNoteTitle == "" && r.newNoteContent == ""
      && r.inputArea == IA.Update(m.inputArea, IA.Runes("n")).ia
  {
    assert KeyName(IA.Runes("n")) == "n";
    assert "n" != "up" && "n" != "k" && "n" != "down" && "n" != "j";
    assert "n" != "enter" && "n" != "esc" && "n" != "ctrl+c" && "n" != "q";
  }

  /** Esc goes back to the list, dropping the shown note, and does nothing
      in the list itself. */
  lemma EscReturns(m: Model, read: Result<string>)
    requires Valid(m)
    ensures var r := Update(m, KeyPress(IA.Esc, read));
      && r.cmd == NoCmd
      && r.m.currentView == ListView
      && (m.currentView == DetailView ==> r.m == m.(currentView := ListView, selectedNoteContent := ""))
      && (m.currentView != DetailView ==> r.m == m.(currentView := ListView))
  {
    assert KeyName(IA.Esc) == "esc";
  }

  /** Enter on a non-empty list opens the note the cursor is on when it can
      be read, and otherwise reports the error and stays. */
  lemma EnterOpensNote(m: Model, read: Result<string>)
    requires Valid(m) && m.currentView == ListView && |m.notes| > 0
    ensures var r := Update(m, KeyPress(IA.Enter, read));
      && r.cmd == NoCmd
      && (read.Ok? ==> r.m.currentView == DetailView && r.m.selectedNoteContent == read.value)
      && (read.Err? ==> r.m.currentView == ListView && r.m.errorMessage != "")
  {
    assert KeyName(IA.Enter) == "enter";
  }

  /** Every key press keeps the cursor on a row; a submission keeps it too
      unless the reloaded list is shorter. */
  lemma SubmitKeepsCursor(m: Model, text: string, saveErr: Option<string>, reload: Listing)
    requires Valid(m) && |reload.notes| >= |m.notes|
    ensures CursorOk(Update(m, SubmitMsg(text, saveErr, reload)).m)
  {
    assert Update(m, SubmitMsg(text, saveErr, reload)).m == Submit(m, text, saveErr, reload);
  }

  /** A successful save whose reload lists no more notes than the cursor
      row leaves the cursor past the end: the cursor is not reset, and a
      later Enter on a non-empty list would index past it. */
  lemma ShorterReloadStrandsCursor(m: Model, text: string, reload: Listing, read: Result<string>)
    requires IA.Valid(m.inputArea) && SplitSubmission(text).0 != "" && reload.err.None?
    requires 0 < m.cursor && |reload.notes| <= m.cursor
    ensures !CursorOk(Update(m, SubmitMsg(text, None, reload)).m)
    ensures var r := Update(m, SubmitMsg(text, None, reload)).m;
      |reload.notes| > 0 ==> ReadsRow(r, KeyPress(IA.Enter, read)) && r.cursor >= |r.notes|
  {
    SubmitReloads(m, text, reload);
    EnterReadsRow(Update(m, SubmitMsg(text, None, reload)).m, read);
  }

  /** A successful save shows the reloaded list and keeps the cursor. */
  lemma SubmitReloads(m: Model, text: string, reload: Listing)
    requires IA.Valid(m.inputArea) && SplitSubmission(text).0 != "" && reload.err.None?
    ensures var r := Update(m, SubmitMsg(text, None, reload)).m;
      r.notes == reload.notes && r.cursor == m.cursor && r.currentView == ListView
  {
  }

  /** Enter on a non-empty list is a row read. */
  lemma EnterReadsRow(m: Model, read: Result<string>)
    ensures ReadsRow(m, KeyPress(IA.Enter, read)) <==> m.currentView == ListView && |m.notes| > 0
  {
    assert KeyName(IA.Enter) == "enter";
    assert "enter" != "ctrl+c" && "enter" != "q";
  }

  /** A blank first line saves nothing. */
  lemma BlankTitleRefused(m: Model, first: string, body: string, saveErr: Option<string>, reload: Listing)
    requires Valid(m) && '\n' !in first && AllSpace(first)
    ensures var r := Update(m, SubmitMsg(first + "\n" + body, saveErr, reload));
      r.m == m.(errorMessage := TitleRequired) && r.saved.None?
  {
    SubmissionParts(first, body);
  }

  /** A submission saves exactly its trimmed first line as the title and
      the rest, as typed, as the content, unless that line is blank. */
  lemma SubmitSavesDraft(m: Model, first: string, body: string, saveErr: Option<string>, reload: Listing)
    requires IA.Valid(m.inputArea) && '\n' !in first
    ensures Update(m, SubmitMsg(first + "\n" + body, saveErr, reload)).saved
      == if AllSpace(first) then None else Some(Draft(TrimSpace(first), body))
  {
    SubmissionParts(first, body);
  }

  // ---- View ----

  const ListHeader: string := "您的筆記:\n\n"
  const EmptyList: string := "沒有找到筆記。按下 'n' 鍵建立新筆記。\n"
  const ListFooter: string := "\n按下 'n' 鍵建立新筆記，'enter' 鍵查看，'q' 鍵退出。\n"

  /** One row of the list: `>` on the cursor row, a space elsewhere. */
  function Row(note: string, here: bool): (r: string)
    ensures |r| == |note| + 3
    ensures r[0] == '>' <==> here
    ensures r[1..] == " " + note + "\n"
  {
    (if here then ">" else " ") + " " + note + "\n"
  }

  function Rows(notes: seq<string>, cursor: int): (r: seq<string>)
    ensures |r| == |notes|
    ensures forall i :: 0 <= i < |notes| ==> r[i] == Row(notes[i], i == cursor)
  {
    seq(|notes|, i requires 0 <= i < |notes| => Row(notes[i], i == cursor))
  }

  function Concat(ss: seq<string>): string
    decreases |ss|
  {
    if ss == [] then "" else ss[0] + Concat(ss[1..])
  }

  /** `View`: the error screen takes precedence over every view. */
  function Render(m: Model): (r: string)
    requires IA.Valid(m.inputArea)
    ensures m.errorMessage != "" ==> r == "錯誤: " + m.errorMessage + "\n按下 q 鍵退出。"
    ensures m.errorMessage == "" && m.currentView == ListView && m.notes == [] ==> r == ListHeader + EmptyList + ListFooter
    ensures m.errorMessage == "" && m.currentView == ListView && m.notes != [] ==> r == ListHeader + Concat(Rows(m.notes, m.cursor)) + ListFooter
  {
    if m.errorMessage != "" then "錯誤: " + m.errorMessage + "\n按下 q 鍵退出。"
    else match m.currentView
      case ListView =>
        ListHeader + (if |m.notes| == 0 then EmptyList else Concat(Rows(m.notes, m.cursor))) + ListFooter
      case DetailView => "筆記內容:\n\n" + m.selectedNoteContent + "\n\n按下 'esc' 鍵返回，'q' 鍵退出。\n"
      case CreateView => "建立新筆記:\n\n" + IA.View(m.inputArea) + "\n\n按下 'esc' 鍵取消，'q' 鍵退出。\n"
  }

  /** Exactly the cursor row carries the `>` mark. */
  lemma OneRowMarked(m: Model)
    requires Valid(m) && m.notes != []
    ensures var rows := Rows(m.notes, m.cursor);
      forall i :: 0 <= i < |rows| ==> (rows[i][0] == '>' <==> i == m.cursor)
    ensures Rows(m.notes, m.cursor)[m.cursor][0] == '>'
  {
  }
}
