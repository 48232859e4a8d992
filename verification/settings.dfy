/** The settings panel of the chat screen (tui/chat_model.go): the LLM
    switch, the retrieval top-K, the Ollama host and the model name, edited
    in temporaries and applied on Enter. The text inputs are not modelled:
    the focused input's value after a key is an input, and so is the reply
    of the connection check. */
module ChatSettings {
  import opened Wrappers
  import opened Text
  import Search

  datatype Chat = Chat(
    llmEnabled: bool,
    topK: int,
    ollamaHost: string,
    modelName: string,
    quitting: bool,
    settingsOpen: bool,
    settingsFocus: int,
    tmpLLMEnabled: bool,
    tmpTopK: int,
    hostInput: string,
    modelInput: string,
    settingsErr: string,
    connStatus: string)

  /** Key presses. `Runes` carries the typed characters. */
  datatype Key = Enter | Esc | CtrlC | F2 | Tab | ShiftTab | Runes(rs: string) | OtherKey

  datatype Cmd = NoCmd | QuitCmd | ChatCmd

  datatype Step = Step(m: Chat, cmd: Cmd)

  const DefaultHost: string := "http://127.0.0.1:11434"
  const DefaultModel: string := "llama3"
  /** The top-K used when none is set. */
  const DefaultTopK: int := 5
  const HostRequired: string := "Host 必填"

  /** What every reachable state keeps: a positive top-K, a positive
      temporary while the panel is open, and a focus of 0 or 1. */
  predicate Valid(m: Chat) {
    m.topK >= 1 && (m.settingsOpen ==> m.tmpTopK >= 1) && (m.settingsFocus == 0 || m.settingsFocus == 1)
  }

  /** `NewChatModel`, as far as the settings go. */
  function NewChat(): (r: Chat)
    ensures Valid(r) && !r.settingsOpen && !r.llmEnabled && r.topK == DefaultTopK
  {
    Chat(false, DefaultTopK, DefaultHost, DefaultModel, false, false, 0, false, 0, "", "", "", "")
  }

  /** `openSettings`: a non-positive top-K is reset first; the temporaries
      start from the applied values and the model field has the focus. */
  function OpenSettings(m: Chat): (r: Chat)
    ensures r.topK == (if m.topK <= 0 then DefaultTopK else m.topK)
    ensures r.tmpTopK == r.topK && r.tmpLLMEnabled == m.llmEnabled
    ensures r.hostInput == m.ollamaHost && r.modelInput == m.modelName
    ensures r.settingsOpen && r.settingsFocus == 0 && r.settingsErr == ""
    ensures r.llmEnabled == m.llmEnabled && r.ollamaHost == m.ollamaHost && r.modelName == m.modelName
  {
    var k := if m.topK <= 0 then DefaultTopK else m.topK;
    m.(tmpLLMEnabled := m.llmEnabled, topK := k, tmpTopK := k, hostInput := m.ollamaHost,
       modelInput := m.modelName, settingsOpen := true, settingsFocus := 0, settingsErr := "")
  }

  /** The temporary top-K `[` and `]` start from: the applied one when the
      temporary is not positive. */
  function TopKBase(m: Chat): int {
    if m.tmpTopK <= 0 then m.topK else m.tmpTopK
  }

  /** Enter in the panel: a blank host is refused and nothing is applied;
      otherwise the temporaries are applied and the panel closes. */
  function Apply(m: Chat): (r: Chat)
    requires Valid(m) && m.settingsOpen
    ensures Valid(r) && r.quitting == m.quitting
    ensures AllSpace(m.hostInput) ==> r == m.(settingsErr := HostRequired)
    ensures !AllSpace(m.hostInput) ==>
      && r.llmEnabled == m.tmpLLMEnabled
      && r.topK == (if m.tmpTopK > 0 then m.tmpTopK else m.topK)
      && r.ollamaHost == TrimSpace(m.hostInput) && r.ollamaHost != ""
      && r.modelName == m.modelInput
      && !r.settingsOpen && r.settingsErr == ""
  {
    var host := TrimSpace(m.hostInput);
    if host == "" then m.(settingsErr := HostRequired)
    else m.(settingsErr := "", llmEnabled := m.tmpLLMEnabled,
            topK := if m.tmpTopK > 0 then m.tmpTopK else m.topK,
            ollamaHost := host, modelName := m.modelInput, settingsOpen := false)
  }

  /** A single typed character in the panel, when it is one of the panel's
      own keys; `None` sends it on to the focused input. The temperature
      keys `<` and `>` change only the temperature, which is not modelled. */
  function PanelRune(m: Chat, c: char, probe: string): (r: Option<Chat>)
    requires Valid(m) && m.settingsOpen
    ensures r.Some? ==> Valid(r.value) && r.value.settingsOpen && SameApplied(r.value, m)
    ensures r.Some? ==> r.value.quitting == m.quitting
  {
    if c == 'l' || c == 'L' then Some(m.(tmpLLMEnabled := !m.tmpLLMEnabled))
    else if c == 't' || c == 'T' then Some(m.(connStatus := probe))
    else if c == '[' then
      var b := TopKBase(m);
      Some(m.(tmpTopK := if b > 1 then b - 1 else b))
    else if c == ']' then Some(m.(tmpTopK := TopKBase(m) + 1))
    else if c == '<' || c == '>' then Some(m)
    else None
  }

  /** The panel's keys that move the focus between the two inputs. */
  function ToggleFocus(m: Chat): (r: Chat)
    requires m.settingsFocus == 0 || m.settingsFocus == 1
    ensures r == m.(settingsFocus := 1 - m.settingsFocus)
  {
    m.(settingsFocus := (m.settingsFocus + 1) % 2)
  }

  /** A key the panel does not handle goes to the focused input. */
  function EditFocused(m: Chat, edited: string): (r: Chat)
    ensures r.settingsFocus == 0 ==> r == m.(modelInput := edited)
    ensures r.settingsFocus != 0 ==> r == m.(hostInput := edited)
  {
    if m.settingsFocus == 0 then m.(modelInput := edited) else m.(hostInput := edited)
  }

  /** A key press while the panel is open. The second Enter branch of the
      source, after the focus keys, is never reached: Enter has returned
      before it. */
  function PanelKey(m: Chat, k: Key, edited: string, probe: string): (r: Chat)
    requires Valid(m) && m.settingsOpen
    ensures Valid(r) && r.quitting == m.quitting
  {
    match k
    case Enter => Apply(m)
    case Esc => m.(settingsOpen := false)
    case Tab => ToggleFocus(m)
    case ShiftTab => ToggleFocus(m)
    case Runes(rs) =>
      var own := if |rs| == 1 then PanelRune(m, rs[0], probe) else None;
      if own.Some? then own.value else EditFocused(m, edited)
    case _ => EditFocused(m, edited)
  }

  /** `ChatModel.Update` for a key press, as far as the settings go. Keys
      other than quit and F2 work on the chat itself and leave the settings
      alone. */
  function Update(m: Chat, k: Key, edited: string, probe: string): (r: Step)
    requires Valid(m)
    ensures Valid(r.m)
    ensures r.cmd == QuitCmd <==> !m.settingsOpen && (k == Esc || k == CtrlC)
    ensures !m.settingsOpen && k == F2 ==> r.m == OpenSettings(m)
  {
    if m.settingsOpen then Step(PanelKey(m, k, edited, probe), NoCmd)
    else if k == Esc || k == CtrlC then Step(m.(quitting := true), QuitCmd)
    else if k == F2 then Step(OpenSettings(m), NoCmd)
    else Step(m, ChatCmd)
  }

  /** `[` never takes the temporary top-K below one, and lowers it by one
      above that. */
  lemma BracketDown(m: Chat, edited: string, probe: string)
    requires Valid(m) && m.settingsOpen
    ensures var r := Update(m, Runes("["), edited, probe).m;
      r.tmpTopK == (if m.tmpTopK > 1 then m.tmpTopK - 1 else m.tmpTopK) && r.tmpTopK >= 1
      && r == m.(tmpTopK := r.tmpTopK)
  {
    assert "["[0] == '[';
  }

  /** `]` raises the temporary top-K by one and changes nothing else. */
  lemma BracketUp(m: Chat, edited: string, probe: string)
    requires Valid(m) && m.settingsOpen
    ensures Update(m, Runes("]"), edited, probe).m == m.(tmpTopK := m.tmpTopK + 1)
  {
    assert "]"[0] == ']';
  }

  /** `l` flips only the temporary LLM switch. */
  lemma ToggleLLM(m: Chat, edited: string, probe: string)
    requires Valid(m) && m.settingsOpen
    ensures Update(m, Runes("l"), edited, probe).m == m.(tmpLLMEnabled := !m.tmpLLMEnabled)
    ensures Update(m, Runes("L"), edited, probe).m == m.(tmpLLMEnabled := !m.tmpLLMEnabled)
  {
    assert "l"[0] == 'l' && "L"[0] == 'L';
  }

  /** The values in force: what Esc keeps and Enter may change. */
  predicate SameApplied(a: Chat, b: Chat) {
    a.llmEnabled == b.llmEnabled && a.topK == b.topK && a.ollamaHost == b.ollamaHost && a.modelName == b.modelName
  }

  /** Esc closes the panel and applies nothing. */
  lemma EscDiscards(m: Chat, edited: string, probe: string)
    requires Valid(m) && m.settingsOpen
    ensures var r := Update(m, Esc, edited, probe);
      !r.m.settingsOpen && SameApplied(r.m, m) && r.cmd == NoCmd
  {
  }

  /** Only Enter with a non-blank host changes the values in force. */
  lemma OnlyApplyChanges(m: Chat, k: Key, edited: string, probe: string)
    requires Valid(m) && m.settingsOpen
    ensures !(k == Enter && !AllSpace(m.hostInput)) ==> SameApplied(Update(m, k, edited, probe).m, m)
  {
  }

  /** Tab and Shift+Tab switch the focus between the two inputs. */
  lemma TabSwitchesFocus(m: Chat, edited: string, probe: string)
    requires Valid(m) && m.settingsOpen
    ensures Update(m, Tab, edited, probe).m == m.(settingsFocus := 1 - m.settingsFocus)
    ensures Update(m, ShiftTab, edited, probe).m == m.(settingsFocus := 1 - m.settingsFocus)
  {
  }

  /** The retrieval top-K: five when none is set. */
  function EffectiveTopK(topK: int): (r: int)
    ensures r >= 1
    ensures topK >= 1 ==> r == topK
  {
    if topK <= 0 then DefaultTopK else topK
  }

  lemma EffectiveTopKOfValid(m: Chat)
    requires Valid(m)
    ensures EffectiveTopK(m.topK) == m.topK
  {
  }

  lemma TrimmedDefaultHost()
    ensures TrimSpace(DefaultHost) == DefaultHost
  {
    assert !IsSpace(DefaultHost[0]) && !IsSpace(DefaultHost[|DefaultHost| - 1]);
    TrimSpaceOfTrimmed(DefaultHost);
  }

  /** Opening the panel on a new chat, pressing `]` and Enter applies a
      top-K of six and closes the panel. */
  lemma RaiseTopKExample(edited: string, probe: string)
    ensures var m1 := Update(NewChat(), F2, edited, probe).m;
      var m2 := Update(m1, Runes("]"), edited, probe).m;
      var m3 := Update(m2, Enter, edited, probe).m;
      m3.topK == 6 && !m3.settingsOpen
  {
    var m1 := Update(NewChat(), F2, edited, probe).m;
    BracketUp(m1, edited, probe);
    var m2 := Update(m1, Runes("]"), edited, probe).m;
    assert m2.tmpTopK == 6 && m2.hostInput == DefaultHost;
    TrimmedDefaultHost();
  }

  /** Opening the panel, pressing `l` and Enter turns the LLM on. */
  lemma EnableLLMExample(edited: string, probe: string)
    ensures var m1 := Update(NewChat(), F2, edited, probe).m;
      var m2 := Update(m1, Runes("l"), edited, probe).m;
      Update(m2, Enter, edited, probe).m.llmEnabled
  {
    var m1 := Update(NewChat(), F2, edited, probe).m;
    ToggleLLM(m1, edited, probe);
    TrimmedDefaultHost();
  }

  /** With a blank host Enter reports the missing host and keeps the panel
      open. */
  lemma BlankHostRefused(m: Chat, probe: string)
    requires Valid(m) && m.settingsOpen && AllSpace(m.hostInput)
    ensures var r := Update(m, Enter, "", probe).m;
      r.settingsOpen && r.settingsErr == HostRequired && SameApplied(r, m)
  {
  }

  // ---- The retrieval reply ----

  /** What retrieval came back with: the index could not be opened, the
      query failed, or the snippets found. */
  datatype Retrieval = OpenFailed(err: string) | QueryFailed(err: string) | Found(snips: seq<Search.Snippet>)

  const NothingFound: string := "找不到相關片段。"

  const ReplyOpen: string := "相關片段（Top "
  const ReplyClose: string := "）：\n"

  /** The header of a retrieval reply, with the top-K used. */
  function ReplyHeader(tk: int): string {
    ReplyOpen + Decimal(tk) + ReplyClose
  }

  /** One `- <id>` line per snippet, each ended by a line break. */
  function IdLines(snips: seq<Search.Snippet>): string {
    if snips == [] then "" else "- " + snips[0].noteId + "\n" + IdLines(snips[1..])
  }

  /** The listed lines, in order. */
  function Bullets(snips: seq<Search.Snippet>): (r: seq<string>)
    ensures |r| == |snips| && forall k :: 0 <= k < |snips| ==> r[k] == "- " + snips[k].noteId
  {
    seq(|snips|, k requires 0 <= k < |snips| => "- " + snips[k].noteId)
  }

  /** Read line by line, the listing is one `- <id>` line per snippet, in
      query order, followed by the empty text after the last break. */
  lemma {:induction false} IdLinesSplit(snips: seq<Search.Snippet>)
    requires forall k :: 0 <= k < |snips| ==> '\n' !in snips[k].noteId
    ensures Split(IdLines(snips), '\n') == Bullets(snips) + [""]
    decreases |snips|
  {
    if snips == [] {
      SplitOne("", '\n');
    } else {
      IdLinesSplit(snips[1..]);
      IdLinesCons(snips);
      BulletsCons(snips);
      AppendSeqAssoc(["- " + snips[0].noteId], Bullets(snips[1..]), [""]);
    }
  }

  /** The first snippet's line splits off the listing. */
  lemma IdLinesCons(snips: seq<Search.Snippet>)
    requires snips != [] && '\n' !in snips[0].noteId
    ensures Split(IdLines(snips), '\n') == ["- " + snips[0].noteId] + Split(IdLines(snips[1..]), '\n')
  {
    var p := "- " + snips[0].noteId;
    assert '\n' !in p;
    SplitCons(p, IdLines(snips[1..]), '\n');
  }

  lemma BulletsCons(snips: seq<Search.Snippet>)
    requires snips != []
    ensures Bullets(snips) == ["- " + snips[0].noteId] + Bullets(snips[1..])
  {
  }

  lemma AppendSeqAssoc(a: seq<string>, b: seq<string>, c: seq<string>)
    ensures a + (b + c) == a + b + c
  {
  }

  /** `queryAndAppend`'s reply, given the top-K in force. */
  function RetrievalReply(topK: int, found: Retrieval): (r: string)
    ensures found.Found? && found.snips == [] ==> r == NothingFound
    ensures found.Found? && found.snips != [] ==>
      HasPrefix(r, ReplyHeader(EffectiveTopK(topK)))
  {
    match found
    case OpenFailed(e) => "檢索初始化失敗: " + e
    case QueryFailed(e) => "檢索錯誤: " + e
    case Found(snips) =>
      if |snips| == 0 then NothingFound
      else ReplyHeader(EffectiveTopK(topK)) + IdLines(snips)
  }

  /** The number in the header reads back as the top-K actually used. */
  lemma HeaderShowsTopK(topK: int)
    ensures var h := ReplyHeader(EffectiveTopK(topK));
      DigitsValue(h[|ReplyOpen|..|h| - |ReplyClose|]) == EffectiveTopK(topK)
  {
    var tk := EffectiveTopK(topK);
    var h := ReplyHeader(tk);
    assert h[|ReplyOpen|..|h| - |ReplyClose|] == Decimal(tk);
    DecimalRoundTrip(tk);
  }
}
