/** The add wizard's confirmation dialogue: the summary shown after every
    parse, and the message-driven state machine that asks for `ok` or
    `cancel` and hands the parsed note to storage and the index. */
module WizardFlow {
  import opened Wrappers
  import opened Text
  import opened NoteStore
  import opened AddWizard

  // ---------------------------------------------------------------------
  // `summarizeParsed`

  const Heading: string := "理解到的新增參數\n- 內容: "
  const TagsLabel: string := "\n- 標籤: "
  const Prompt: string := "\n\n輸入 'ok' 以儲存，或 'cancel' 取消。"
  const EmptyContent: string := "(空)"
  const NoTags: string := "(無)"

  /** The content as the summary shows it: a placeholder when it is blank. */
  function ShownContent(content: string): (r: string)
    ensures AllSpace(content) ==> r == EmptyContent
    ensures !AllSpace(content) ==> r == content
  {
    if TrimSpace(content) == "" then EmptyContent else content
  }

  /** The tags as the summary shows them: a placeholder when there are none. */
  function TagLine(tags: seq<string>): (r: string)
    ensures tags == [] ==> r == NoTags
    ensures tags != [] ==> r == Join(tags, ", ")
  {
    if |tags| > 0 then Join(tags, ", ") else NoTags
  }

  /** `summarizeParsed`: heading, content, tag line, then the ok/cancel prompt. */
  function SummarizeParsed(content: string, tags: seq<string>): string {
    Heading + SummaryBody(ShownContent(content), TagLine(tags)) + Prompt
  }

  /** The two summary lines between heading and prompt. */
  function SummaryBody(shown: string, line: string): string {
    shown + TagsLabel + line
  }

  /** The last position below `n` holding `c`, or -1. */
  function LastIndexBelow(s: string, c: char, n: nat): (r: int)
    requires n <= |s|
    ensures -1 <= r < n
    ensures r >= 0 ==> s[r] == c
    ensures forall j :: r < j < n ==> s[j] != c
    decreases n
  {
    if n == 0 then -1
    else if s[n - 1] == c then n - 1
    else LastIndexBelow(s, c, n - 1)
  }

  /** The content a summary line stands for. */
  function ReadContent(shown: string): string {
    if shown == EmptyContent then "" else shown
  }

  /** The tags a summary tag line stands for. */
  function ReadTags(line: string): seq<string> {
    if line == NoTags then [] else FieldsWhere(line, IsItemSep)
  }

  /** Reads a summary back into the parse it shows. */
  function ReadSummary(s: string): Option<Parsed> {
    if |s| < |Heading| + |Prompt| || s[..|Heading|] != Heading || s[|s| - |Prompt|..] != Prompt then None
    else ReadBody(s[|Heading|..|s| - |Prompt|])
  }

  /** The part between heading and prompt: the tag line is found after the
      last `標`, which neither the tags nor the prompt contain. */
  function ReadBody(mid: string): Option<Parsed> {
    var k := LastIndexBelow(mid, '標', |mid|);
    if k < 3 || |mid| < k + 4 || mid[k - 3..k + 4] != TagsLabel then None
    else Some(Parsed(ReadContent(mid[..k - 3]), ReadTags(mid[k + 4..])))
  }

  lemma ReadSummaryFrame(mid: string)
    ensures ReadSummary(Heading + mid + Prompt) == ReadBody(mid)
  {
    var s := Heading + mid + Prompt;
    assert s[..|Heading|] == Heading;
    assert s[|s| - |Prompt|..] == Prompt;
    assert s[|Heading|..|s| - |Prompt|] == mid;
  }

  lemma ReadBodyParts(shown: string, line: string)
    requires '標' !in line
    ensures ReadBody(SummaryBody(shown, line)) == Some(Parsed(ReadContent(shown), ReadTags(line)))
  {
    var mid := SummaryBody(shown, line);
    var p := |shown| + 3;
    SummaryBodyShape(shown, line, mid);
    LastIndexAt(mid, '標', p, |mid|);
  }

  /** Where the label sits in a summary body, and that no `標` follows it. */
  lemma SummaryBodyShape(shown: string, line: string, mid: string)
    requires '標' !in line
    requires mid == shown + TagsLabel + line
    ensures |mid| >= |shown| + 7 && mid[|shown| + 3] == '標'
    ensures forall j :: |shown| + 3 < j < |mid| ==> mid[j] != '標'
    ensures mid[|shown|..|shown| + 7] == TagsLabel
    ensures mid[..|shown|] == shown && mid[|shown| + 7..] == line
  {
    var p := |shown| + 3;
    forall j | p < j < |mid| ensures mid[j] != '標' {
      if j >= |shown| + |TagsLabel| {
        assert mid[j] == line[j - |shown| - |TagsLabel|];
      }
    }
  }

  /** A `c` at `p` with none after it, below `n`, is the last one. */
  lemma {:induction false} LastIndexAt(s: string, c: char, p: nat, n: nat)
    requires p < n <= |s| && s[p] == c
    requires forall j :: p < j < n ==> s[j] != c
    ensures LastIndexBelow(s, c, n) == p
    decreases n
  {
    if s[n - 1] != c {
      LastIndexAt(s, c, p, n - 1);
    }
  }

  /** Parsed tags come back from their tag line. */
  lemma ReadTagLine(tags: seq<string>)
    requires forall k :: 0 <= k < |tags| ==> IsParsedTag(tags[k])
    ensures '標' !in TagLine(tags)
    ensures ReadTags(TagLine(tags)) == tags
  {
    if tags != [] {
      var sep := ", ";
      forall k | 0 <= k < |tags|
        ensures |tags[k]| > 0 && forall i :: 0 <= i < |tags[k]| ==> !IsItemSep(tags[k][i])
      {
        assert TagText(tags[k]);
        forall i | 0 <= i < |tags[k]| ensures !IsItemSep(tags[k][i]) {
          assert tags[k][i] in tags[k];
        }
      }
      forall k | 0 <= k < |tags| ensures '標' !in tags[k] && '(' !in tags[k] {
        assert TagText(tags[k]);
      }
      JoinAvoids(tags, sep, '標');
      JoinAvoids(tags, sep, '(');
      assert NoTags[0] == '(';
      assert TagLine(tags) != NoTags;
      FieldsWhereJoin(tags, sep, IsItemSep);
    }
  }

  /** Trimmed content comes back from its summary line, unless it is the
      placeholder itself. */
  lemma ReadShownContent(content: string)
    requires Trimmed(content) && content != EmptyContent
    ensures ReadContent(ShownContent(content)) == content
  {
    if AllSpace(content) {
      TrimSpaceOfTrimmed(content);
    }
  }

  /** `summarizeParsed` loses nothing for a parse whose content is not the
      placeholder: reading the summary back gives the parse. */
  lemma SummaryRoundTrip(p: Parsed)
    requires Trimmed(p.content) && p.content != EmptyContent
    requires forall k :: 0 <= k < |p.tags| ==> IsParsedTag(p.tags[k])
    ensures ReadSummary(SummarizeParsed(p.content, p.tags)) == Some(p)
  {
    ReadTagLine(p.tags);
    ReadShownContent(p.content);
    ReadSummaryFrame(SummaryBody(ShownContent(p.content), TagLine(p.tags)));
    ReadBodyParts(ShownContent(p.content), TagLine(p.tags));
  }

  /** Any parse of user input is recoverable from its summary. */
  lemma SummaryOfParseRoundTrip(s: string)
    requires ParseAddInput(s).content != EmptyContent
    ensures ReadSummary(SummarizeParsed(ParseAddInput(s).content, ParseAddInput(s).tags)) == Some(ParseAddInput(s))
  {
    SummaryRoundTrip(ParseAddInput(s));
  }

  /** Blank content and content that reads `(空)` give the same summary. */
  lemma SummaryBlankAmbiguous(tags: seq<string>)
    ensures SummarizeParsed("", tags) == SummarizeParsed(EmptyContent, tags)
  {
    assert !IsSpace(EmptyContent[0]);
  }

  // ---------------------------------------------------------------------
  // `AddWizardModel.Update`

  /** One line of the chat history, by what it says. `Said` gives the
      exact string the wizard appends for it. */
  datatype Entry =
    | Intro
    | Typed(text: string)
    | Summary(source: string)
    | NotConfigured
    | Cancelled
    | Saved(id: string)
    | SaveFailed(err: string)

  datatype Role = User | Assistant | System

  function RoleOf(e: Entry): Role {
    match e
    case Intro => System
    case Typed(_) => User
    case _ => Assistant
  }

  function Said(e: Entry): string {
    match e
    case Intro => "請描述要新增的筆記內容。\n- 可直接輸入文字；標籤可用 #tag 或 'tags: a,b'。\n- 我會解析內容與標籤並顯示彙整結果供你確認。"
    case Typed(t) => t
    case Summary(t) => var p := ParseAddInput(t); SummarizeParsed(p.content, p.tags)
    case NotConfigured => "Error: storage/index not configured"
    case Cancelled => "Cancelled."
    case Saved(id) => "Saved note with ID: " + id
    case SaveFailed(err) => "Error: " + err
  }

  /** The wizard's state; the text area is its current value. */
  datatype Wizard = Wizard(
    input: string,
    history: seq<Entry>,
    width: int,
    height: int,
    quitting: bool,
    hasSaver: bool,
    hasIndexer: bool,
    parsed: Parsed,
    confirmPending: bool)

  /** Keys the wizard tells apart; any other key goes to the text area,
      whose resulting value is given. */
  datatype Key = Enter(alt: bool) | Esc | CtrlC | Edit(value: string)

  datatype Msg =
    | KeyPress(key: Key)
    | Resize(w: int, h: int)
    | NoteSaved(id: string)
    | NoteSaveError(err: string)
    | Other

  /** What `Update` asks the runtime to do next. `WidgetCmd` stands for the
      widgets' own commands. */
  datatype Cmd = NoCmd | QuitCmd | SaveCmd(note: Note) | WidgetCmd

  /** What a save reads from the clock: the Unix nanoseconds `genID` reads
      and the two stamps, each its own `time.Now()`. */
  datatype Clock = Clock(nanos: int, createdAt: int, updatedAt: int)

  datatype Step = Step(w: Wizard, cmd: Cmd)

  /** `genID`: the clock's Unix nanoseconds in decimal. */
  function GenID(nanos: int): (r: string)
    ensures |r| > 0
    ensures nanos >= 0 ==> forall i :: 0 <= i < |r| ==> '0' <= r[i] <= '9'
  {
    Decimal(nanos)
  }

  /** Distinct clock readings give distinct IDs. */
  lemma GenIDInjective(a: nat, b: nat)
    requires GenID(a) == GenID(b)
    ensures a == b
  {
    DecimalRoundTrip(a);
    DecimalRoundTrip(b);
  }

  /** `NewAddWizardModelWithDeps`; without deps both flags are false. */
  function NewWizard(hasSaver: bool, hasIndexer: bool): (w: Wizard)
    ensures w.history == [Intro]
    ensures w.input == [] && !w.quitting && !w.confirmPending
    ensures w.parsed == Parsed([], [])
  {
    Wizard([], [Intro], 0, 0, false, hasSaver, hasIndexer, Parsed([], []), false)
  }

  predicate IsConfirm(low: string) {
    low == "ok" || low == "yes" || low == "y"
  }

  predicate IsCancel(low: string) {
    low == "cancel" || low == "no" || low == "n"
  }

  /** Every confirm or cancel word is a non-empty reply. */
  lemma ReplyWordNonBlank(content: string)
    requires IsConfirm(ToLower(content)) || IsCancel(ToLower(content))
    ensures content != []
  {
    assert |ToLower(content)| > 0;
  }

  /** No word both confirms and cancels. */
  lemma CancelIsNotConfirm(low: string)
    requires IsCancel(low)
    ensures !IsConfirm(low)
  {
    if low == "no" {
      assert low[0] != "ok"[0];
    }
  }

  /** The note a confirmed parse becomes. */
  function DraftNote(p: Parsed, clock: Clock): (n: Note)
    ensures |n.id| > 0
    ensures clock.nanos >= 0 ==> forall i :: 0 <= i < |n.id| ==> '0' <= n.id[i] <= '9'
  {
    Note(GenID(clock.nanos), p.content, p.tags, clock.createdAt, clock.updatedAt)
  }

  /** Appends one assistant line. */
  function Say(w: Wizard, e: Entry): Wizard {
    w.(history := w.history + [e])
  }

  /** The re-parse branch: log the input, parse it, show the summary and
      wait for confirmation. */
  function Summarize(w: Wizard, content: string): (r: Wizard)
    ensures r.confirmPending && r.input == [] && r.quitting == w.quitting
    ensures r.parsed == ParseAddInput(content)
    ensures r.history == w.history + [Typed(content), Summary(content)]
  {
    var p := ParseAddInput(content);
    w.(history := w.history + [Typed(content), Summary(content)], input := [], parsed := p, confirmPending := true)
  }

  /** Enter without Alt, given the trimmed input. */
  function Submit(w: Wizard, content: string, clock: Clock): (r: Step)
    ensures r.w.hasSaver == w.hasSaver && r.w.hasIndexer == w.hasIndexer
    ensures w.history <= r.w.history
    ensures w.quitting ==> r.w.quitting
    ensures r.cmd == QuitCmd ==> r.w.quitting
  {
    if content == [] then Step(w, NoCmd)
    else if w.confirmPending && IsConfirm(ToLower(content)) then
      if !w.hasSaver || !w.hasIndexer then
        Step(Say(w, NotConfigured).(input := [], confirmPending := false), NoCmd)
      else
        Step(w.(input := []), SaveCmd(DraftNote(w.parsed, clock)))
    else if w.confirmPending && IsCancel(ToLower(content)) then
      Step(Say(w, Cancelled).(input := [], quitting := true), QuitCmd)
    else Step(Summarize(w, content), NoCmd)
  }

  /** `AddWizardModel.Update`. */
  function Update(w: Wizard, msg: Msg, clock: Clock): (r: Step)
    ensures r.w.hasSaver == w.hasSaver && r.w.hasIndexer == w.hasIndexer
    ensures w.history <= r.w.history
    ensures w.quitting ==> r.w.quitting
    ensures r.cmd == QuitCmd ==> r.w.quitting
  {
    match msg
    case KeyPress(k) =>
      (match k
       case Enter(alt) =>
         if alt then Step(w.(input := w.input + "\n"), NoCmd) else Submit(w, TrimSpace(w.input), clock)
       case Esc => Step(w.(quitting := true), QuitCmd)
       case CtrlC => Step(w.(quitting := true), QuitCmd)
       case Edit(v) => Step(w.(input := v), WidgetCmd))
    case Resize(wd, ht) => Step(w.(width := wd, height := ht), NoCmd)
    case NoteSaved(id) => Step(Say(w, Saved(id)).(quitting := true), QuitCmd)
    case NoteSaveError(e) => Step(Say(w, SaveFailed(e)).(confirmPending := true), NoCmd)
    case Other => Step(w, WidgetCmd)
  }

  /** The save command: storage first, and the index only after a
      successful save. `indexed` records whether the index was called. */
  datatype SaveRun = SaveRun(reply: Msg, indexed: bool)

  function RunSave(note: Note, saveErr: Option<string>, indexErr: Option<string>): (r: SaveRun)
    ensures r.indexed <==> saveErr.None?
    ensures r.reply.NoteSaved? || r.reply.NoteSaveError?
    ensures r.reply.NoteSaved? <==> saveErr.None? && indexErr.None?
    ensures r.reply.NoteSaved? ==> r.reply.id == note.id
    ensures saveErr.Some? ==> r.reply == NoteSaveError(saveErr.value)
  {
    if saveErr.Some? then SaveRun(NoteSaveError(saveErr.value), false)
    else if indexErr.Some? then SaveRun(NoteSaveError(indexErr.value), true)
    else SaveRun(NoteSaved(note.id), true)
  }

  // ---------------------------------------------------------------------
  // Properties of the dialogue

  /** A save is issued exactly for a confirm word typed while confirming,
      with storage and index present, and it carries the held parse. */
  lemma SaveExactlyOnConfirm(w: Wizard, msg: Msg, clock: Clock)
    ensures var r := Update(w, msg, clock);
      (r.cmd.SaveCmd? <==>
        msg == KeyPress(Enter(false)) && w.confirmPending && w.hasSaver && w.hasIndexer
        && IsConfirm(ToLower(TrimSpace(w.input))))
      && (r.cmd.SaveCmd? ==> r.cmd.note == DraftNote(w.parsed, clock) && r.w == w.(input := []))
      && (r.cmd.SaveCmd? ==> r.cmd.note.id == GenID(clock.nanos) && r.cmd.note.id != [])
  {
    if msg == KeyPress(Enter(false)) {
      SubmitSavesOnConfirm(w, TrimSpace(w.input), clock);
    }
  }

  /** The submit half: a save exactly for a confirm word with both
      dependencies present. */
  lemma SubmitSavesOnConfirm(w: Wizard, content: string, clock: Clock)
    ensures var r := Submit(w, content, clock);
      (r.cmd.SaveCmd? <==> w.confirmPending && w.hasSaver && w.hasIndexer && IsConfirm(ToLower(content)))
      && (r.cmd.SaveCmd? ==> r.cmd.note == DraftNote(w.parsed, clock) && r.w == w.(input := []))
  {
    if IsConfirm(ToLower(content)) {
      ReplyWordNonBlank(content);
    }
  }

  /** Enter on blank input changes nothing. */
  lemma BlankSubmitIsNoOp(w: Wizard, clock: Clock)
    requires AllSpace(w.input)
    ensures Update(w, KeyPress(Enter(false)), clock) == Step(w, NoCmd)
  {
  }

  /** Alt+Enter adds a line break instead of submitting. */
  lemma AltEnterAddsNewline(w: Wizard, clock: Clock)
    ensures Update(w, KeyPress(Enter(true)), clock) == Step(w.(input := w.input + "\n"), NoCmd)
  {
  }

  /** Outside confirmation, or for any reply that is neither a confirm nor a
      cancel word, the input is parsed and the wizard waits for confirmation. */
  lemma SubmitReparses(w: Wizard, clock: Clock)
    requires !AllSpace(w.input)
    requires !w.confirmPending || (!IsConfirm(ToLower(TrimSpace(w.input))) && !IsCancel(ToLower(TrimSpace(w.input))))
    ensures Update(w, KeyPress(Enter(false)), clock) == Step(Summarize(w, TrimSpace(w.input)), NoCmd)
  {
  }

  /** A cancel word while confirming quits without saving. */
  lemma CancelQuits(w: Wizard, clock: Clock)
    requires w.confirmPending && IsCancel(ToLower(TrimSpace(w.input)))
    ensures Update(w, KeyPress(Enter(false)), clock)
         == Step(w.(input := [], history := w.history + [Cancelled], quitting := true), QuitCmd)
  {
    ReplyWordNonBlank(TrimSpace(w.input));
    CancelIsNotConfirm(ToLower(TrimSpace(w.input)));
  }

  /** A confirm word without storage or index reports the error and leaves
      the confirmation stage. */
  lemma ConfirmWithoutDeps(w: Wizard, clock: Clock)
    requires w.confirmPending && IsConfirm(ToLower(TrimSpace(w.input)))
    requires !w.hasSaver || !w.hasIndexer
    ensures var r := Update(w, KeyPress(Enter(false)), clock);
      r.cmd == NoCmd && !r.w.confirmPending && r.w.quitting == w.quitting
      && r.w.history == w.history + [NotConfigured]
  {
    ReplyWordNonBlank(TrimSpace(w.input));
  }

  /** A failed save reports the error and stays in confirmation, so `ok`
      can be tried again; a successful one quits. */
  lemma SaveOutcome(w: Wizard, note: Note, saveErr: Option<string>, indexErr: Option<string>, clock: Clock)
    ensures var r := Update(w, RunSave(note, saveErr, indexErr).reply, clock);
      if saveErr.None? && indexErr.None? then
        r.cmd == QuitCmd && r.w.quitting && r.w.history == w.history + [Saved(note.id)]
      else
        r.cmd == NoCmd && r.w.confirmPending && r.w.quitting == w.quitting
  {
  }

  /** The text the user last submitted, if any. */
  function LastTyped(h: seq<Entry>): (r: Option<string>)
    ensures r.Some? ==> Typed(r.value) in h
  {
    if h == [] then None
    else if h[|h| - 1].Typed? then Some(h[|h| - 1].text)
    else LastTyped(h[..|h| - 1])
  }

  /** The parse the wizard should hold: that of the last submitted text, or
      the empty parse before any. */
  function ExpectedParse(h: seq<Entry>): Parsed {
    match LastTyped(h)
    case None => Parsed([], [])
    case Some(c) => ParseAddInput(c)
  }

  /** A submitted text is non-blank and trimmed. */
  predicate WellTyped(e: Entry) {
    e.Typed? ==> e.text != [] && Trimmed(e.text)
  }

  /** A summary line comes right after the text it summarises. */
  predicate Follows(prev: Entry, e: Entry) {
    e.Summary? ==> prev == Typed(e.source)
  }

  /** The shape of every reachable history: the intro first, submitted
      texts trimmed and non-blank, each summary after its text. */
  predicate HistoryOk(h: seq<Entry>) {
    && |h| > 0
    && h[0] == Intro
    && (forall k :: 0 <= k < |h| ==> WellTyped(h[k]))
    && (forall k :: 0 < k < |h| ==> Follows(h[k - 1], h[k]))
  }

  /** The invariant every reachable wizard keeps: a well-shaped history,
      and the held parse is that of the last submitted text. */
  predicate Consistent(w: Wizard) {
    HistoryOk(w.history) && w.parsed == ExpectedParse(w.history)
  }

  lemma NewWizardConsistent(hasSaver: bool, hasIndexer: bool)
    ensures Consistent(NewWizard(hasSaver, hasIndexer))
  {
    assert LastTyped([Intro]) == LastTyped([]);
  }

  lemma HistoryAfterSay(h: seq<Entry>, e: Entry)
    requires HistoryOk(h) && !e.Typed? && !e.Summary?
    ensures HistoryOk(h + [e])
    ensures LastTyped(h + [e]) == LastTyped(h)
  {
    var h2 := h + [e];
    assert h2[..|h|] == h;
    forall k | 0 < k < |h2| ensures Follows(h2[k - 1], h2[k]) {
      if k < |h| { assert h2[k] == h[k] && h2[k - 1] == h[k - 1]; }
    }
  }

  lemma HistoryAfterExchange(h: seq<Entry>, content: string)
    requires HistoryOk(h) && content != [] && Trimmed(content)
    ensures HistoryOk(h + [Typed(content), Summary(content)])
    ensures LastTyped(h + [Typed(content), Summary(content)]) == Some(content)
  {
    var h2 := h + [Typed(content), Summary(content)];
    assert h2[..|h2| - 1] == h + [Typed(content)];
    forall k | 0 < k < |h2| ensures Follows(h2[k - 1], h2[k]) {
      if k < |h| { assert h2[k] == h[k] && h2[k - 1] == h[k - 1]; }
    }
  }

  /** Logging an assistant line keeps the invariant. */
  lemma SayConsistent(w: Wizard, e: Entry, w2: Wizard)
    requires Consistent(w)
    requires !e.Typed? && !e.Summary?
    requires w2.history == w.history + [e] && w2.parsed == w.parsed
    ensures Consistent(w2)
  {
    HistoryAfterSay(w.history, e);
  }

  /** Logging a trimmed, non-blank input with its summary keeps the invariant. */
  lemma SummarizeConsistent(w: Wizard, content: string)
    requires Consistent(w)
    requires content != [] && Trimmed(content)
    ensures Consistent(Summarize(w, content))
  {
    HistoryAfterExchange(w.history, content);
  }

  /** Every step keeps the invariant. */
  lemma SubmitConsistent(w: Wizard, content: string, clock: Clock)
    requires Consistent(w) && Trimmed(content)
    ensures Consistent(Submit(w, content, clock).w)
  {
    var r := Submit(w, content, clock);
    if content != [] {
      if w.confirmPending && IsConfirm(ToLower(content)) {
        if !w.hasSaver || !w.hasIndexer {
          SayConsistent(w, NotConfigured, r.w);
        }
      } else if w.confirmPending && IsCancel(ToLower(content)) {
        SayConsistent(w, Cancelled, r.w);
      } else {
        SummarizeConsistent(w, content);
      }
    }
  }

  lemma UpdateConsistent(w: Wizard, msg: Msg, clock: Clock)
    requires Consistent(w)
    ensures Consistent(Update(w, msg, clock).w)
  {
    match msg
    case KeyPress(k) => KeyConsistent(w, k, clock);
    case NoteSaved(id) => SayConsistent(w, Saved(id), Update(w, msg, clock).w);
    case NoteSaveError(e) => SayConsistent(w, SaveFailed(e), Update(w, msg, clock).w);
    case Resize(_, _) =>
    case Other =>
  }

  lemma KeyConsistent(w: Wizard, k: Key, clock: Clock)
    requires Consistent(w)
    ensures Consistent(Update(w, KeyPress(k), clock).w)
  {
    match k
    case Enter(alt) =>
      if alt {
        assert Update(w, KeyPress(Enter(true)), clock).w == w.(input := w.input + "\n");
      } else {
        EnterConsistent(w, clock);
      }
    case Esc =>
    case CtrlC =>
    case Edit(v) =>
  }

  lemma EnterConsistent(w: Wizard, clock: Clock)
    requires Consistent(w)
    ensures Consistent(Submit(w, TrimSpace(w.input), clock).w)
  {
    SubmitConsistent(w, TrimSpace(w.input), clock);
  }

  /** The note `ok` saves is the parse of the last text the user submitted. */
  lemma SavedNoteIsLastParse(w: Wizard, msg: Msg, clock: Clock)
    requires Consistent(w)
    ensures var r := Update(w, msg, clock);
      r.cmd.SaveCmd? ==> Parsed(r.cmd.note.content, r.cmd.note.tags) == ExpectedParse(w.history)
  {
    SaveExactlyOnConfirm(w, msg, clock);
  }

  lemma OkIsTrimmed()
    ensures TrimSpace("ok") == "ok"
  {
    var ok := "ok";
    assert |ok| == 2 && !IsSpace(ok[0]) && !IsSpace(ok[1]);
    TrimSpaceOfTrimmed(ok);
  }

  lemma OkIsLower()
    ensures ToLower("ok") == "ok"
  {
    var ok := "ok";
    assert |ok| == 2 && Lower(ok[0]) == ok[0] && Lower(ok[1]) == ok[1];
    ToLowerOfLower(ok);
  }

  /** Typing `ok` is a confirm word. */
  lemma OkConfirms()
    ensures IsConfirm(ToLower(TrimSpace("ok")))
  {
    OkIsTrimmed();
    OkIsLower();
  }

  /** The whole dialogue: describe a note, then answer `ok`. With storage and
      index present the wizard issues the save of exactly that parse. */
  lemma DescribeThenConfirm(text: string, clock: Clock)
    requires !AllSpace(text)
    ensures var w0 := NewWizard(true, true);
      var s1 := Update(w0.(input := text), KeyPress(Enter(false)), clock);
      var s2 := Update(s1.w.(input := "ok"), KeyPress(Enter(false)), clock);
      s1.cmd == NoCmd && s1.w.confirmPending
      && s2.cmd == SaveCmd(DraftNote(ParseAddInput(TrimSpace(text)), clock))
  {
    var w1 := NewWizard(true, true).(input := text);
    SubmitReparses(w1, clock);
    var w2 := Summarize(w1, TrimSpace(text));
    assert w2.hasSaver && w2.hasIndexer && w2.confirmPending;
    OkConfirms();
    SaveExactlyOnConfirm(w2.(input := "ok"), KeyPress(Enter(false)), clock);
  }
}
