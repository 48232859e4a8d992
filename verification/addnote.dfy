/** The one-line note form (tui/add_note.go): Enter takes the typed text
    as the note and every `#` word as a tag; Esc and Ctrl+C leave without
    taking anything. The text input widget is not modelled: its value after
    an edit is carried by the key. */
module AddNote {
  import opened Text
  import NoteStore

  datatype AddNote = AddNote(value: string, width: int, quitting: bool, content: string, tags: seq<string>)

  datatype Key = Enter | CtrlC | Esc | Edit(value: string)

  datatype Msg = KeyPress(k: Key) | WindowSize(width: int, height: int) | Other

  datatype Cmd = NoCmd | QuitCmd | WidgetCmd

  datatype Step = Step(a: AddNote, cmd: Cmd)

  const Placeholder: string := "Enter your note, use # for tags..."

  /** `NewAddNote`: an empty form of default width. */
  function NewAddNote(): (r: AddNote)
    ensures r.value == "" && !r.quitting && r.content == "" && r.tags == []
  {
    AddNote("", 80, false, "", [])
  }

  /** The tags of some fields: each field that starts with `#`, without that
      one `#`. A bare `#` gives an empty tag. */
  function HashWords(fs: seq<string>): (r: seq<string>)
    ensures |r| <= |fs|
  {
    if fs == [] then []
    else if HasPrefix(fs[0], "#") then [TrimPrefix(fs[0], "#")] + HashWords(fs[1..])
    else HashWords(fs[1..])
  }

  /** The tags Enter takes from the typed text. */
  function FieldTags(content: string): seq<string> {
    HashWords(Fields(content))
  }

  /** `AddNote.Update`. */
  function Update(a: AddNote, msg: Msg): (r: Step)
    ensures r.cmd == QuitCmd <==> msg.KeyPress? && !msg.k.Edit?
    ensures r.cmd == QuitCmd ==> r.a.quitting
    ensures a.quitting ==> r.a.quitting
    ensures msg.KeyPress? && msg.k == Enter ==> r.a.content == a.value && r.a.tags == a.tags + FieldTags(a.value)
    ensures !(msg.KeyPress? && msg.k == Enter) ==> r.a.content == a.content && r.a.tags == a.tags
  {
    match msg
    case KeyPress(k) =>
      (match k
       case Enter => Step(a.(content := a.value, tags := a.tags + FieldTags(a.value), quitting := true), QuitCmd)
       case CtrlC => Step(a.(quitting := true), QuitCmd)
       case Esc => Step(a.(quitting := true), QuitCmd)
       case Edit(v) => Step(a.(value := v), WidgetCmd))
    case WindowSize(w, _) => Step(a.(width := w - 4), WidgetCmd)
    case Other => Step(a, WidgetCmd)
  }

  /** Leaving with Esc or Ctrl+C keeps no note. */
  lemma LeaveKeepsNothing(a: AddNote)
    ensures var e := Update(a, KeyPress(Esc)); e.a == a.(quitting := true) && e.cmd == QuitCmd
    ensures var c := Update(a, KeyPress(CtrlC)); c.a == a.(quitting := true) && c.cmd == QuitCmd
  {
  }

  /** Fields joined by `#`-less words contribute nothing; fields each holding
      a `#` contribute the rest of the field. */
  lemma {:induction false} HashWordsOfHashed(tags: seq<string>)
    ensures HashWords(NoteStore.Hashed(tags)) == tags
  {
    if tags != [] {
      var hs := NoteStore.Hashed(tags);
      assert hs[1..] == NoteStore.Hashed(tags[1..]);
      HashWordsOfHashed(tags[1..]);
      assert HasPrefix(hs[0], "#");
      assert TrimPrefix(hs[0], "#") == tags[0];
    }
  }

  /** Tags typed as `#tag` words separated by single spaces come back in
      order, duplicates included; an empty tag comes back from a bare `#`. */
  lemma TagsRoundTrip(tags: seq<string>)
    requires forall k :: 0 <= k < |tags| ==> NoSpace(tags[k])
    ensures FieldTags(Join(NoteStore.Hashed(tags), " ")) == tags
  {
    var hs := NoteStore.Hashed(tags);
    forall k | 0 <= k < |hs| ensures |hs[k]| > 0 && NoSpace(hs[k]) {
      assert hs[k] == "#" + tags[k];
      assert forall i :: 1 <= i < |hs[k]| ==> hs[k][i] == tags[k][i - 1];
    }
    NoteStore.FieldsOfJoin(hs);
    HashWordsOfHashed(tags);
  }

  /** What `storage.ExtractTags` keeps of the form's tags: the non-empty ones. */
  function NonEmpty(ts: seq<string>): (r: seq<string>)
    ensures |r| <= |ts|
  {
    if ts == [] then [] else if ts[0] == "" then NonEmpty(ts[1..]) else [ts[0]] + NonEmpty(ts[1..])
  }

  /** The form and `storage.ExtractTags` differ only in the empty tags a
      bare `#` gives. */
  lemma {:induction false} HashWordsVsExtract(fs: seq<string>)
    ensures NoteStore.TagsOfFields(fs) == NonEmpty(HashWords(fs))
  {
    if fs != [] {
      HashWordsVsExtract(fs[1..]);
      if HasPrefix(fs[0], "#") {
        var t := TrimPrefix(fs[0], "#");
        assert |t| == |fs[0]| - 1;
        assert ([t] + HashWords(fs[1..]))[1..] == HashWords(fs[1..]);
      }
    }
  }

  lemma ExtractIsNonEmptyFieldTags(content: string)
    ensures NoteStore.ExtractTags(content) == NonEmpty(FieldTags(content))
  {
    HashWordsVsExtract(Fields(content));
  }

  /** A lone `#` is an empty tag here and no tag for `storage.ExtractTags`. */
  lemma BareHash()
    ensures FieldTags("#") == [""]
    ensures NoteStore.ExtractTags("#") == []
  {
    NoteStore.FieldsOfJoin(["#"]);
    assert HasPrefix("#", "#") && TrimPrefix("#", "#") == "";
    assert HashWords(["#"]) == [""];
    ExtractIsNonEmptyFieldTags("#");
  }

  /** Entering `hello #world` keeps the text and the one tag `world`. */
  lemma HelloWorld()
    ensures var r := Update(NewAddNote().(value := "hello #world"), KeyPress(Enter));
      r.a.content == "hello #world" && r.a.tags == ["world"] && r.cmd == QuitCmd
  {
    HelloWorldTags();
  }

  lemma HelloWorldTags()
    ensures FieldTags("hello #world") == ["world"]
  {
    var w, t := "hello", "world";
    assert forall i :: 0 <= i < |w| ==> !IsSpace(w[i]);
    assert forall i :: 0 <= i < |t| ==> !IsSpace(t[i]);
    WordThenTag(w, t);
    assert w + " #" + t == "hello #world";
  }

  /** A plain word and a `#` word give just the second word's tag. */
  lemma WordThenTag(w: string, t: string)
    requires w != [] && w[0] != '#' && NoSpace(w) && NoSpace(t)
    ensures FieldTags(w + " #" + t) == [t]
  {
    var ws := [w, "#" + t];
    assert NoSpace("#" + t) by {
      assert forall i :: 1 <= i < |"#" + t| ==> ("#" + t)[i] == t[i - 1];
    }
    JoinCons(w, ["#" + t], " ");
    assert Join(ws, " ") == w + " #" + t;
    NoteStore.FieldsOfJoin(ws);
    HashWordsPlain(w, ws[1..]);
    HashWordsTag(t, []);
  }

  lemma HashWordsPlain(w: string, fs: seq<string>)
    requires w != [] && w[0] != '#'
    ensures HashWords([w] + fs) == HashWords(fs)
  {
    assert ([w] + fs)[1..] == fs;
  }

  lemma HashWordsTag(t: string, fs: seq<string>)
    ensures HashWords(["#" + t] + fs) == [t] + HashWords(fs)
  {
    assert (["#" + t] + fs)[1..] == fs;
    assert TrimPrefix("#" + t, "#") == t;
  }

  const Heading: string := "Enter your note below. Use #hashtags to add tags.\n\n"
  const Footer: string := "\n\n(Press Enter to save, Esc to quit)"

  /** `View`, with the widget's own rendering as input: nothing once the
      form has quit. */
  function View(a: AddNote, widget: string): (r: string)
    ensures r == "" <==> a.quitting
    ensures !a.quitting ==> |r| == |Heading| + |widget| + |Footer|
    ensures !a.quitting ==> r[|Heading|..|r| - |Footer|] == widget
  {
    if a.quitting then "" else Heading + widget + Footer
  }
}
