/** The prompt template of the `ask` command (cmd/ask.go): the built-in
    default, the line-oriented loader for a `system:` / `user:` file, and the
    placeholder substitution. The file text is a parameter; a failed read is
    `None`. */
module AskTemplate {
  import opened Wrappers
  import opened Text

  datatype Template = Template(system: string, user: string)

  const QuestionSlot: string := "{{question}}"
  const ContextSlot: string := "{{context}}"
  const SystemHeader: string := "system:"
  const UserHeader: string := "user:"
  /** The indentation removed from each content line. */
  const Indent: string := "  "

  /** `defaultAskTemplate`. */
  function DefaultAskTemplate(): (t: Template)
    ensures t.system != "" && t.user != ""
    ensures OccursAt(t.user, QuestionSlot, 3) && OccursAt(t.user, ContextSlot, 30)
  {
    var head := "問題：";
    var mid := "\n\n相關筆記（若空代表無）：\n";
    var tail := "\n\n請彙整要點、避免臆測。";
    var user := head + QuestionSlot + mid + ContextSlot + tail;
    OccursInMiddle(head, QuestionSlot, mid + ContextSlot + tail);
    assert head + QuestionSlot + (mid + ContextSlot + tail) == user;
    OccursInMiddle(head + QuestionSlot + mid, ContextSlot, tail);
    Template("你是助理，請以繁體中文回答，僅根據提供的相關筆記回答；若無關資訊，請明確說明找不到答案。", user)
  }

  /** The section the loader is filling. */
  datatype Section = NoSection | SystemSection | UserSection

  /** What the loader makes of one line: a section header, or content with
      one leading indent removed. */
  datatype Line = SystemLine | UserLine | Content(text: string)

  /** The loader's state between lines: the current section and the lines
      collected for each. */
  datatype Scan = Scan(mode: Section, sys: seq<string>, usr: seq<string>)

  const Start: Scan := Scan(NoSection, [], [])

  /** The `switch` on the trimmed line: `system:` is matched first. */
  function Classify(ln: string): (l: Line)
    ensures l.Content? ==> l.text == TrimPrefix(ln, Indent)
  {
    var trimmed := TrimSpace(ln);
    if HasPrefix(trimmed, SystemHeader) then SystemLine
    else if HasPrefix(trimmed, UserHeader) then UserLine
    else Content(TrimPrefix(ln, Indent))
  }

  function Classified(lines: seq<string>): (r: seq<Line>)
    ensures |r| == |lines| && forall k :: 0 <= k < |lines| ==> r[k] == Classify(lines[k])
  {
    seq(|lines|, k requires 0 <= k < |lines| => Classify(lines[k]))
  }

  /** One iteration of the loader's loop: a header switches section and is
      itself dropped; content goes to the current section, or nowhere before
      the first header. */
  function Step(st: Scan, l: Line): Scan {
    match l
    case SystemLine => Scan(SystemSection, st.sys, st.usr)
    case UserLine => Scan(UserSection, st.sys, st.usr)
    case Content(text) =>
      match st.mode
      case SystemSection => Scan(SystemSection, st.sys + [text], st.usr)
      case UserSection => Scan(UserSection, st.sys, st.usr + [text])
      case NoSection => st
  }

  /** The loop over all lines, in order. */
  function ScanLines(st: Scan, ls: seq<Line>): Scan
    decreases |ls|
  {
    if ls == [] then st else ScanLines(Step(st, ls[0]), ls[1..])
  }

  /** The text after the last line: both sections joined and trimmed, the
      default when either is empty. */
  function ParseTemplate(text: string): (t: Template)
    ensures t == DefaultAskTemplate() || (t.system != "" && t.user != "" && Trimmed(t.system) && Trimmed(t.user))
  {
    var st := ScanLines(Start, Classified(Split(text, '\n')));
    Chosen(TrimSpace(Join(st.sys, "\n")), TrimSpace(Join(st.usr, "\n")))
  }

  /** The parsed sections, unless either is empty. */
  function Chosen(system: string, user: string): (t: Template)
    requires Trimmed(system) && Trimmed(user)
    ensures t == DefaultAskTemplate() || (t.system != "" && t.user != "" && Trimmed(t.system) && Trimmed(t.user))
    ensures system != "" && user != "" ==> t == Template(system, user)
  {
    if system == "" || user == "" then DefaultAskTemplate() else Template(system, user)
  }

  /** `loadAskTemplateOrDefault`: a blank path or a failed read gives the
      default; otherwise the file text is parsed. */
  function LoadAskTemplateOrDefault(path: string, file: Option<string>): (t: Template)
    ensures AllSpace(path) || file.None? ==> t == DefaultAskTemplate()
    ensures !AllSpace(path) && file.Some? ==> t == ParseTemplate(file.value)
    ensures t.system != "" && t.user != ""
  {
    if TrimSpace(path) == "" then DefaultAskTemplate()
    else match file
      case None => DefaultAskTemplate()
      case Some(text) => ParseTemplate(text)
  }

  /** Scanning two blocks of lines is scanning the second from where the
      first left off. */
  lemma {:induction false} ScanAppend(st: Scan, a: seq<Line>, b: seq<Line>)
    ensures ScanLines(st, a + b) == ScanLines(ScanLines(st, a), b)
    decreases |a|
  {
    if a != [] {
      assert (a + b)[0] == a[0];
      assert (a + b)[1..] == a[1..] + b;
      ScanAppend(Step(st, a[0]), a[1..], b);
    } else {
      assert a + b == b;
    }
  }

  predicate AllContent(ls: seq<Line>) {
    forall k :: 0 <= k < |ls| ==> ls[k].Content?
  }

  function Texts(ls: seq<Line>): (r: seq<string>)
    requires AllContent(ls)
    ensures |r| == |ls| && forall k :: 0 <= k < |ls| ==> r[k] == ls[k].text
  {
    seq(|ls|, k requires 0 <= k < |ls| => ls[k].text)
  }

  lemma ScanCons(st: Scan, ls: seq<Line>)
    requires ls != []
    ensures ScanLines(st, ls) == ScanLines(Step(st, ls[0]), ls[1..])
  {
  }

  lemma TextsCons(ls: seq<Line>)
    requires ls != [] && AllContent(ls)
    ensures AllContent(ls[1..]) && Texts(ls) == [ls[0].text] + Texts(ls[1..])
  {
  }

  lemma AppendFirst(a: seq<string>, x: string, rest: seq<string>, all: seq<string>)
    requires all == [x] + rest
    ensures a + [x] + rest == a + all
  {
  }

  /** Content before the first header is ignored. */
  lemma {:induction false} ContentIgnored(st: Scan, ls: seq<Line>)
    requires AllContent(ls) && st.mode == NoSection
    ensures ScanLines(st, ls) == st
    decreases |ls|
  {
    if ls != [] {
      TextsCons(ls);
      ScanCons(st, ls);
      ContentIgnored(st, ls[1..]);
    }
  }

  /** Content goes, in order, to the system section while it is current. */
  lemma {:induction false} SystemContent(st: Scan, ls: seq<Line>)
    requires AllContent(ls) && st.mode == SystemSection
    ensures ScanLines(st, ls) == Scan(SystemSection, st.sys + Texts(ls), st.usr)
    decreases |ls|
  {
    if ls != [] {
      var next := Scan(SystemSection, st.sys + [ls[0].text], st.usr);
      TextsCons(ls);
      calc {
        ScanLines(st, ls);
        { ScanCons(st, ls); }
        ScanLines(next, ls[1..]);
        { SystemContent(next, ls[1..]); }
        Scan(SystemSection, next.sys + Texts(ls[1..]), next.usr);
        { AppendFirst(st.sys, ls[0].text, Texts(ls[1..]), Texts(ls)); }
        Scan(SystemSection, st.sys + Texts(ls), st.usr);
      }
    }
  }

  /** The same for the user section. */
  lemma {:induction false} UserContent(st: Scan, ls: seq<Line>)
    requires AllContent(ls) && st.mode == UserSection
    ensures ScanLines(st, ls) == Scan(UserSection, st.sys, st.usr + Texts(ls))
    decreases |ls|
  {
    if ls != [] {
      var next := Scan(UserSection, st.sys, st.usr + [ls[0].text]);
      TextsCons(ls);
      calc {
        ScanLines(st, ls);
        { ScanCons(st, ls); }
        ScanLines(next, ls[1..]);
        { UserContent(next, ls[1..]); }
        Scan(UserSection, next.sys, next.usr + Texts(ls[1..]));
        { AppendFirst(st.usr, ls[0].text, Texts(ls[1..]), Texts(ls)); }
        Scan(UserSection, st.sys, st.usr + Texts(ls));
      }
    }
  }

  /** A repeated `system:` header keeps what the section already holds and
      appends the lines after it. */
  lemma RepeatedHeaderAppends(st: Scan, body: seq<Line>)
    requires AllContent(body)
    ensures ScanLines(st, [SystemLine] + body) == Scan(SystemSection, st.sys + Texts(body), st.usr)
  {
    assert ([SystemLine] + body)[1..] == body;
    SystemContent(Scan(SystemSection, st.sys, st.usr), body);
  }

  /** Without a user header the user section stays as it is. */
  lemma {:induction false} NoUserHeaderKeepsUser(st: Scan, ls: seq<Line>)
    requires st.mode != UserSection
    requires forall k :: 0 <= k < |ls| ==> ls[k] != UserLine
    ensures ScanLines(st, ls).usr == st.usr
    decreases |ls|
  {
    if ls != [] {
      NoUserHeaderKeepsUser(Step(st, ls[0]), ls[1..]);
    }
  }

  /** A file without a `user:` line gives the default template, whatever its
      system section holds. */
  lemma WithoutUserSectionIsDefault(path: string, text: string)
    requires forall k :: 0 <= k < |Split(text, '\n')| ==> Classify(Split(text, '\n')[k]) != UserLine
    ensures LoadAskTemplateOrDefault(path, Some(text)) == DefaultAskTemplate()
  {
    NoUserHeaderKeepsUser(Start, Classified(Split(text, '\n')));
  }

  /** A trimmed line that starts with `system:` is a system header. */
  lemma ClassifySystemHeader(ln: string)
    requires Trimmed(ln) && HasPrefix(ln, SystemHeader)
    ensures Classify(ln) == SystemLine
  {
    TrimSpaceOfTrimmed(ln);
  }

  /** A trimmed line that starts with `user:` is a user header. */
  lemma ClassifyUserHeader(ln: string)
    requires Trimmed(ln) && HasPrefix(ln, UserHeader) && ln[0] != SystemHeader[0]
    ensures Classify(ln) == UserLine
  {
    TrimSpaceOfTrimmed(ln);
  }

  /** A file that is a single `system:` line gives the default: the system
      header's own text is dropped and there is no user section. */
  lemma SystemLineOnlyIsDefault(path: string, ln: string)
    requires '\n' !in ln && Trimmed(ln) && HasPrefix(ln, SystemHeader)
    ensures LoadAskTemplateOrDefault(path, Some(ln)) == DefaultAskTemplate()
  {
    SplitJoin([ln], '\n');
    assert Join([ln], "\n") == ln;
    ClassifySystemHeader(ln);
    assert Split(ln, '\n') == [ln];
    WithoutUserSectionIsDefault(path, ln);
  }

  /** The one-line file `system: s` gives the default. */
  lemma SystemSLineIsDefault(path: string)
    ensures LoadAskTemplateOrDefault(path, Some("system: s")) == DefaultAskTemplate()
  {
    SystemLineOnlyIsDefault(path, "system: s");
  }

  /** A line the loader treats as content. */
  predicate IsContent(ln: string) {
    Classify(ln).Content?
  }

  /** Lines with the indent put back. */
  function Indented(lines: seq<string>): (r: seq<string>)
    ensures |r| == |lines| && forall k :: 0 <= k < |lines| ==> r[k] == Indent + lines[k]
  {
    seq(|lines|, k requires 0 <= k < |lines| => Indent + lines[k])
  }

  lemma TrimIndented(ln: string)
    ensures TrimSpace(Indent + ln) == TrimSpace(ln)
  {
    TrimSpaceOfLeftPadded(Indent, ln);
  }

  lemma DedentIndentedLine(ln: string)
    ensures TrimPrefix(Indent + ln, Indent) == ln
  {
    assert (Indent + ln)[..|Indent|] == Indent;
  }

  /** Indenting a content line keeps it content, with its own text. */
  lemma ClassifyIndentedLine(ln: string)
    requires IsContent(ln)
    ensures Classify(Indent + ln) == Content(ln)
  {
    TrimIndented(ln);
    DedentIndentedLine(ln);
  }

  /** Indented content lines classify as their own text. */
  lemma ClassifyIndented(lines: seq<string>)
    requires forall k :: 0 <= k < |lines| ==> IsContent(lines[k])
    ensures AllContent(Classified(Indented(lines)))
    ensures Texts(Classified(Indented(lines))) == lines
  {
    forall k | 0 <= k < |lines| ensures Classified(Indented(lines))[k] == Content(lines[k]) {
      ClassifyIndentedLine(lines[k]);
    }
  }

  /** The lines a template is written as: a header line per section, then
      the section's lines indented. */
  function TemplateLines(t: Template): seq<string> {
    [SystemHeader + " |"] + Indented(Split(t.system, '\n')) + [UserHeader + " |"] + Indented(Split(t.user, '\n'))
  }

  function TemplateText(t: Template): string {
    Join(TemplateLines(t), "\n")
  }

  lemma SplitTemplateText(t: Template)
    ensures Split(TemplateText(t), '\n') == TemplateLines(t)
  {
    var ss := Split(t.system, '\n');
    var us := Split(t.user, '\n');
    var lines := TemplateLines(t);
    forall k | 0 <= k < |lines| ensures '\n' !in lines[k] {
      if 0 < k <= |ss| {
        assert lines[k] == Indent + ss[k - 1];
      } else if |ss| + 1 < k {
        assert lines[k] == Indent + us[k - |ss| - 2];
      }
    }
    SplitJoin(lines, '\n');
  }

  /** Classifying is done line by line. */
  lemma ClassifiedSections(h1: string, xs: seq<string>, h2: string, ys: seq<string>)
    ensures Classified([h1] + xs + [h2] + ys) == [Classify(h1)] + Classified(xs) + [Classify(h2)] + Classified(ys)
  {
    ClassifiedAppend([h1] + xs + [h2], ys);
    ClassifiedAppend([h1] + xs, [h2]);
    ClassifiedAppend([h1], xs);
    ClassifiedOne(h1);
    ClassifiedOne(h2);
  }

  lemma ClassifiedAppend(a: seq<string>, b: seq<string>)
    ensures Classified(a + b) == Classified(a) + Classified(b)
  {
    var c, d := Classified(a + b), Classified(a) + Classified(b);
    forall k | 0 <= k < |c| ensures c[k] == d[k] {
      if k < |a| {
        assert (a + b)[k] == a[k];
      } else {
        assert (a + b)[k] == b[k - |a|];
      }
    }
  }

  lemma ClassifiedOne(ln: string)
    ensures Classified([ln]) == [Classify(ln)]
  {
    var c := Classified([ln]);
    assert |c| == 1 && c[0] == Classify([ln][0]);
  }

  lemma ClassifyHeaders()
    ensures Classify(SystemHeader + " |") == SystemLine
    ensures Classify(UserHeader + " |") == UserLine
  {
    HeaderBar(SystemHeader);
    HeaderBar(UserHeader);
    assert (UserHeader + " |")[0] == 'u' && SystemHeader[0] == 's';
    ClassifySystemHeader(SystemHeader + " |");
    ClassifyUserHeader(UserHeader + " |");
  }

  /** A header followed by ` |` is a trimmed line starting with the header. */
  lemma HeaderBar(h: string)
    requires |h| > 0 && !IsSpace(h[0])
    ensures Trimmed(h + " |") && HasPrefix(h + " |", h)
  {
    var ln := h + " |";
    assert ln[0] == h[0] && ln[|ln| - 1] == '|';
    assert ln[..|h|] == h;
  }

  /** The classified lines of a template's text. */
  lemma ClassifyTemplateLines(t: Template)
    requires forall k :: 0 <= k < |Split(t.system, '\n')| ==> IsContent(Split(t.system, '\n')[k])
    requires forall k :: 0 <= k < |Split(t.user, '\n')| ==> IsContent(Split(t.user, '\n')[k])
    ensures var cs := Classified(Indented(Split(t.system, '\n')));
      var cu := Classified(Indented(Split(t.user, '\n')));
      && Classified(TemplateLines(t)) == [SystemLine] + cs + [UserLine] + cu
      && AllContent(cs) && Texts(cs) == Split(t.system, '\n')
      && AllContent(cu) && Texts(cu) == Split(t.user, '\n')
  {
    ClassifyHeaders();
    ClassifyIndented(Split(t.system, '\n'));
    ClassifyIndented(Split(t.user, '\n'));
    ClassifiedSections(SystemHeader + " |", Indented(Split(t.system, '\n')), UserHeader + " |", Indented(Split(t.user, '\n')));
  }

  /** The scan of a template's lines collects each section's lines. */
  lemma ScanTemplateLines(cs: seq<Line>, cu: seq<Line>)
    requires AllContent(cs) && AllContent(cu)
    ensures ScanLines(Start, [SystemLine] + cs + [UserLine] + cu) == Scan(UserSection, Texts(cs), Texts(cu))
  {
    var st1 := Scan(SystemSection, [], []);
    var st2 := Scan(SystemSection, Texts(cs), []);
    var st3 := Scan(UserSection, Texts(cs), []);
    assert ScanLines(Start, [SystemLine]) == st1;
    SystemContent(st1, cs);
    assert [] + Texts(cs) == Texts(cs);
    assert ScanLines(st2, [UserLine]) == st3;
    UserContent(st3, cu);
    assert [] + Texts(cu) == Texts(cu);
    ScanAppend(Start, [SystemLine], cs);
    ScanAppend(Start, [SystemLine] + cs, [UserLine]);
    ScanAppend(Start, [SystemLine] + cs + [UserLine], cu);
  }

  /** A template whose sections are trimmed, non-empty and free of header
      lines loads back from its own text. */
  lemma LoadRoundTrip(path: string, t: Template)
    requires !AllSpace(path)
    requires t.system != "" && t.user != "" && Trimmed(t.system) && Trimmed(t.user)
    requires forall k :: 0 <= k < |Split(t.system, '\n')| ==> IsContent(Split(t.system, '\n')[k])
    requires forall k :: 0 <= k < |Split(t.user, '\n')| ==> IsContent(Split(t.user, '\n')[k])
    ensures LoadAskTemplateOrDefault(path, Some(TemplateText(t))) == t
  {
    SplitTemplateText(t);
    ClassifyTemplateLines(t);
    ScanTemplateLines(Classified(Indented(Split(t.system, '\n'))), Classified(Indented(Split(t.user, '\n'))));
    JoinSplit(t.system, '\n');
    JoinSplit(t.user, '\n');
    TrimSpaceOfTrimmed(t.system);
    TrimSpaceOfTrimmed(t.user);
  }

  /** The substitution applied to each part: `{{question}}` first, then
      `{{context}}`. */
  function Render(s: string, q: string, ctx: string): string {
    ReplaceAll(ReplaceAll(s, QuestionSlot, q), ContextSlot, ctx)
  }

  /** `renderTemplate`: the same substitution for the system and the user part. */
  function RenderTemplate(tpl: Template, q: string, ctx: string): (r: (string, string))
    ensures !Contains(tpl.system, QuestionSlot) && !Contains(tpl.system, ContextSlot) ==> r.0 == tpl.system
    ensures !Contains(tpl.user, QuestionSlot) && !Contains(tpl.user, ContextSlot) ==> r.1 == tpl.user
  {
    RenderAbsent(tpl.system, q, ctx);
    RenderAbsent(tpl.user, q, ctx);
    (Render(tpl.system, q, ctx), Render(tpl.user, q, ctx))
  }

  lemma RenderAbsent(s: string, q: string, ctx: string)
    ensures !Contains(s, QuestionSlot) && !Contains(s, ContextSlot) ==> Render(s, q, ctx) == s
  {
    if !Contains(s, QuestionSlot) && !Contains(s, ContextSlot) {
      ReplaceAllAbsent(s, QuestionSlot, q);
      ReplaceAllAbsent(s, ContextSlot, ctx);
    }
  }

  /** A template with one question slot followed by one context slot, whose
      other text and question hold no `{`, renders as that text with the
      question and the context in the slots, whatever the context holds. */
  lemma RenderFillsSlots(a: string, b: string, c: string, q: string, ctx: string)
    requires '{' !in a && '{' !in b && '{' !in c && '{' !in q
    ensures Render(a + QuestionSlot + b + ContextSlot + c, q, ctx) == a + q + b + ctx + c
  {
    FillQuestion(a, b, c, q);
    FillContext(a + q + b, c, ctx);
    assert (a + q + b) + ContextSlot + c == a + q + b + ContextSlot + c;
    assert (a + q + b) + ctx + c == a + q + b + ctx + c;
  }

  /** The first pass puts the question in its slot and keeps the context slot. */
  lemma FillQuestion(a: string, b: string, c: string, q: string)
    requires '{' !in a && '{' !in b && '{' !in c
    ensures ReplaceAll(a + QuestionSlot + b + ContextSlot + c, QuestionSlot, q) == a + q + b + ContextSlot + c
  {
    QuestionSlotAbsent(c, q);
    ReplaceAllOnce(a, QuestionSlot, b, ContextSlot + c, q);
    AppendAssoc(a + QuestionSlot, b, ContextSlot + c);
    AppendAssoc(a + QuestionSlot + b, ContextSlot, c);
    AppendAssoc(a + q, b, ContextSlot + c);
    AppendAssoc(a + q + b, ContextSlot, c);
  }

  /** The second pass puts the context in its slot. */
  lemma FillContext(p: string, c: string, ctx: string)
    requires '{' !in p && '{' !in c
    ensures ReplaceAll(p + ContextSlot + c, ContextSlot, ctx) == p + ctx + c
  {
    ReplaceAllFirst(p, ContextSlot, c, ctx);
  }

  /** The context slot followed by brace-free text holds no question slot. */
  lemma QuestionSlotAbsent(c: string, q: string)
    requires '{' !in c
    ensures ReplaceAll(ContextSlot + c, QuestionSlot, q) == ContextSlot + c
  {
    var s := ContextSlot + c;
    assert '{' !in s[2..];
    if |s| >= |QuestionSlot| {
      assert s[..|QuestionSlot|][2] != QuestionSlot[2];
      assert s[1..] == [s[1]] + s[2..];
      if |s[1..]| >= |QuestionSlot| {
        assert s[1..][..|QuestionSlot|][2] != QuestionSlot[2];
      }
      assert s == [s[0]] + ([s[1]] + s[2..]);
    }
  }

  /** The question is substituted before the context, so a `{{context}}` the
      question itself contains is filled in too. */
  lemma QuestionBeforeContext(ctx: string)
    ensures Render(QuestionSlot, ContextSlot, ctx) == ctx
  {
    assert QuestionSlot[..|QuestionSlot|] == QuestionSlot;
    assert ReplaceAll(QuestionSlot, QuestionSlot, ContextSlot) == ContextSlot + ReplaceAll([], QuestionSlot, ContextSlot);
    assert ContextSlot + [] == ContextSlot;
    assert ContextSlot[..|ContextSlot|] == ContextSlot;
    assert ReplaceAll(ContextSlot, ContextSlot, ctx) == ctx + ReplaceAll([], ContextSlot, ctx);
    assert ctx + [] == ctx;
  }
}
