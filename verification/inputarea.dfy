/** The rune-buffer editor of the list/detail/create screens
    (internal/tui/input_area.go): a sequence of characters and a cursor
    between them, edited key by key. */
module InputArea {

  /** The editor: its characters, the cursor (a character index) and the
      placeholder shown while it is empty. */
  datatype InputArea = InputArea(runes: string, cursor: int, placeholder: string)

  /** The keys the editor reacts to, and every other key. `Runes` carries
      the characters the key press types. */
  datatype Key = Runes(rs: string) | Backspace | Left | Right | Enter | CtrlJ
               | Up | Down | Esc | CtrlC | OtherKey(name: string)

  /** What an update hands back to the program: nothing, or the submission
      of the current text. */
  datatype Cmd = NoCmd | Submit(text: string)

  datatype Step = Step(ia: InputArea, cmd: Cmd)

  const Placeholder: string := "在這裡輸入…Enter 送出 / Ctrl+J 換行"

  /** The cursor sits between two characters or at an end. */
  predicate Valid(ia: InputArea) {
    0 <= ia.cursor <= |ia.runes|
  }

  /** `NewInputArea`. */
  function NewInputArea(): (r: InputArea)
    ensures Valid(r) && r.runes == [] && r.placeholder == Placeholder
  {
    InputArea([], 0, Placeholder)
  }

  /** `insertRunes`: the new characters go in at `idx`, in order. */
  function InsertRunes(base: string, idx: int, ins: string): (r: string)
    requires 0 <= idx <= |base|
    ensures |r| == |base| + |ins|
    ensures r[..idx] == base[..idx]
    ensures r[idx..idx + |ins|] == ins
    ensures r[idx + |ins|..] == base[idx..]
  {
    base[..idx] + ins + base[idx..]
  }

  /** `Text`. */
  function Text(ia: InputArea): string {
    ia.runes
  }

  /** `InputArea.Update` for a key press. Enter hands the text to the
      program and changes nothing; keys the editor does not know are
      ignored. */
  function Update(ia: InputArea, k: Key): (r: Step)
    requires Valid(ia)
    ensures Valid(r.ia)
    ensures r.ia.placeholder == ia.placeholder
    ensures r.cmd.Submit? <==> k == Enter
    ensures k == Enter ==> r.ia == ia && r.cmd.text == Text(ia)
  {
    match k
    case Runes(rs) =>
      Step(ia.(runes := InsertRunes(ia.runes, ia.cursor, rs), cursor := ia.cursor + |rs|), NoCmd)
    case Backspace =>
      if ia.cursor > 0 then
        Step(ia.(runes := ia.runes[..ia.cursor - 1] + ia.runes[ia.cursor..], cursor := ia.cursor - 1), NoCmd)
      else Step(ia, NoCmd)
    case Left =>
      Step(if ia.cursor > 0 then ia.(cursor := ia.cursor - 1) else ia, NoCmd)
    case Right =>
      Step(if ia.cursor < |ia.runes| then ia.(cursor := ia.cursor + 1) else ia, NoCmd)
    case Enter => Step(ia, Submit(Text(ia)))
    case CtrlJ =>
      Step(ia.(runes := InsertRunes(ia.runes, ia.cursor, "\n"), cursor := ia.cursor + 1), NoCmd)
    case _ => Step(ia, NoCmd)
  }

  /** Typed characters land at the cursor, which moves past them. */
  lemma TypingInserts(ia: InputArea, rs: string)
    requires Valid(ia)
    ensures var r := Update(ia, Runes(rs)).ia;
      r.runes == ia.runes[..ia.cursor] + rs + ia.runes[ia.cursor..] && r.cursor == ia.cursor + |rs|
  {
  }

  /** Backspace removes exactly the character before the cursor, and does
      nothing at the start. */
  lemma BackspaceRemovesOne(ia: InputArea)
    requires Valid(ia)
    ensures var r := Update(ia, Backspace).ia;
      && (ia.cursor == 0 ==> r == ia)
      && (ia.cursor > 0 ==>
            |r.runes| == |ia.runes| - 1 && r.cursor == ia.cursor - 1
            && r.runes[..r.cursor] == ia.runes[..ia.cursor - 1]
            && r.runes[r.cursor..] == ia.runes[ia.cursor..])
  {
  }

  /** Left and Right move the cursor by one within the text and never
      change the text. */
  lemma ArrowsMoveCursor(ia: InputArea)
    requires Valid(ia)
    ensures var l := Update(ia, Left).ia;
      l.runes == ia.runes && l.cursor == (if ia.cursor > 0 then ia.cursor - 1 else 0)
    ensures var r := Update(ia, Right).ia;
      r.runes == ia.runes && r.cursor == (if ia.cursor < |ia.runes| then ia.cursor + 1 else |ia.runes|)
  {
  }

  /** Ctrl+J is typing a line break. */
  lemma CtrlJIsNewline(ia: InputArea)
    requires Valid(ia)
    ensures Update(ia, CtrlJ) == Update(ia, Runes("\n"))
  {
  }

  /** Backspace undoes typing one character. */
  lemma BackspaceUndoesTyping(ia: InputArea, c: char)
    requires Valid(ia)
    ensures Update(Update(ia, Runes([c])).ia, Backspace).ia == ia
  {
    var t := Update(ia, Runes([c])).ia;
    assert t.runes[..t.cursor - 1] + t.runes[t.cursor..] == ia.runes;
  }

  /** Right undoes Left away from the start. */
  lemma RightUndoesLeft(ia: InputArea)
    requires Valid(ia) && ia.cursor > 0
    ensures Update(Update(ia, Left).ia, Right).ia == ia
  {
  }

  /** The prompt in front of the editor's text. */
  const PromptMark: string := "> "

  /** `View`: the placeholder while empty, else the text with `|` at the
      cursor. */
  function View(ia: InputArea): (r: string)
    requires Valid(ia)
    ensures ia.runes == [] ==> r == PromptMark + ia.placeholder
    ensures ia.runes != [] ==> |r| == |PromptMark| + |ia.runes| + 1 && r[|PromptMark| + ia.cursor] == '|'
    ensures ia.runes != [] ==> r[..|PromptMark|] == PromptMark
  {
    if |ia.runes| == 0 then PromptMark + ia.placeholder
    else PromptMark + ia.runes[..ia.cursor] + "|" + ia.runes[ia.cursor..]
  }

  /** Taking the cursor mark out of the view leaves the prompt and the text. */
  lemma ViewWithoutCursor(ia: InputArea)
    requires Valid(ia) && ia.runes != []
    ensures var v := View(ia); var p := |PromptMark| + ia.cursor;
      v[..p] + v[p + 1..] == PromptMark + Text(ia)
  {
    var v := View(ia);
    var p := |PromptMark| + ia.cursor;
    assert v[..p] == PromptMark + ia.runes[..ia.cursor];
    assert v[p + 1..] == ia.runes[ia.cursor..];
    assert ia.runes[..ia.cursor] + ia.runes[ia.cursor..] == ia.runes;
  }

  /** Typing 漢, moving left and typing 字 gives 字漢; Backspace then leaves 漢. */
  lemma TwoCharacterExample()
    ensures var a := Update(NewInputArea(), Runes("漢")).ia;
      var b := Update(a, Left).ia;
      var c := Update(b, Runes("字")).ia;
      var d := Update(c, Backspace).ia;
      Text(a) == "漢" && Text(c) == "字漢" && Text(d) == "漢"
  {
    var a := Update(NewInputArea(), Runes("漢")).ia;
    assert a.runes == "漢" && a.cursor == 1;
    var b := Update(a, Left).ia;
    assert b.runes == "漢" && b.cursor == 0;
    var c := Update(b, Runes("字")).ia;
    assert c.runes == "字" + "漢" && c.cursor == 1;
    var d := Update(c, Backspace).ia;
    assert d.runes == c.runes[1..];
  }
}
