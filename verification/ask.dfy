/** The ask pipeline of cmd/core/ask.go: the session's provider call with
    fallback, the scripted mock provider, the tag and context preparation of
    the `ask` command, clean-up of the model's reply and the snippet list
    shown when the reply is empty. */
module Ask {
  import opened Wrappers
  import opened Text
  import opened Search
  import opened Cli

  const ChatOnlyMode: string := "chat-only"
  const FallbackContent: string := "Fallback response: Unable to reach LLM"
  const DefaultMockContent: string := "Default mock"

  /** What a provider call returns: a response (absent for Go's nil pointer)
      and an error (absent for nil). */
  datatype Reply = Reply(resp: Option<string>, err: Option<string>)

  /** `LLMSession`. The provider is absent (nil) or present; a present
      provider's answer to the call is the `reply` argument of `AskLLM`. */
  datatype Session = Session(hasProvider: bool, prompt: string, mode: string, fallbackEnabled: bool)

  /** `AskLLM`: the mode check, then the provider check, then the call, whose
      error is replaced by the fixed fallback response when fallback is on. */
  function AskLLM(s: Session, reply: Reply): (r: Reply)
    ensures s.mode != ChatOnlyMode ==> r == Reply(None, Some("mode not supported"))
    ensures s.mode == ChatOnlyMode && !s.hasProvider ==> r == Reply(None, Some("no LLM provider"))
    ensures s.mode == ChatOnlyMode && s.hasProvider && reply.err.Some? && s.fallbackEnabled ==>
      r == Reply(Some(FallbackContent), None)
    ensures s.mode == ChatOnlyMode && s.hasProvider && !(reply.err.Some? && s.fallbackEnabled) ==> r == reply
  {
    if s.mode != ChatOnlyMode then Reply(None, Some("mode not supported"))
    else if !s.hasProvider then Reply(None, Some("no LLM provider"))
    else if reply.err.Some? && s.fallbackEnabled then Reply(Some(FallbackContent), None)
    else reply
  }

  /** A nil error from `AskLLM` means the call went through: chat-only mode,
      a provider, and either no provider error or fallback on. */
  lemma AskLLMSucceedsOnlyThroughProvider(s: Session, reply: Reply)
    ensures AskLLM(s, reply).err.None? <==>
      s.mode == ChatOnlyMode && s.hasProvider && (reply.err.None? || s.fallbackEnabled)
  {
  }

  /** With fallback on, a provider error never reaches the caller. */
  lemma FallbackHidesProviderError(s: Session, reply: Reply)
    requires s.mode == ChatOnlyMode && s.hasProvider && s.fallbackEnabled
    ensures AskLLM(s, reply).err.None?
    ensures reply.err.Some? ==> AskLLM(s, reply).resp == Some(FallbackContent)
    ensures reply.err.None? ==> AskLLM(s, reply) == reply
  {
  }

  /** `MockLLMProvider`: scripted errors (an entry may be nil) and responses
      sharing one cursor. */
  datatype Mock = Mock(responses: seq<string>, errors: seq<Option<string>>, idx: nat)

  /** `MockLLMProvider.Prompt`: the reply and the mock afterwards. */
  function MockPrompt(m: Mock): (r: (Reply, Mock))
    ensures r.1.responses == m.responses && r.1.errors == m.errors
    ensures r.1.idx == m.idx || r.1.idx == m.idx + 1
  {
    if m.idx < |m.errors| then (Reply(None, m.errors[m.idx]), m.(idx := m.idx + 1))
    else if m.idx < |m.responses| then (Reply(Some(m.responses[m.idx]), None), m.(idx := m.idx + 1))
    else (Reply(Some(DefaultMockContent), None), m)
  }

  /** The mock after `k` calls. */
  function MockAfter(m: Mock, k: nat): (r: Mock)
    ensures r.responses == m.responses && r.errors == m.errors
    decreases k
  {
    if k == 0 then m else MockAfter(MockPrompt(m).1, k - 1)
  }

  function Max(a: int, b: int): int {
    if a < b then b else a
  }

  function Min(a: int, b: int): int {
    if a < b then a else b
  }

  /** The cursor counts the calls until both lists are used up, then stays. */
  lemma {:induction false} MockCursor(m: Mock, k: nat)
    requires m.idx <= Max(|m.errors|, |m.responses|)
    ensures MockAfter(m, k).idx == Min(m.idx + k, Max(|m.errors|, |m.responses|))
    decreases k
  {
    if k > 0 {
      MockCursor(MockPrompt(m).1, k - 1);
    }
  }

  /** The `k`-th call of a fresh mock (counting from zero) reports the `k`-th
      scripted error while errors last, then the `k`-th response (the first
      responses are skipped, since the cursor is shared), then the default
      text forever. */
  lemma MockNthCall(responses: seq<string>, errors: seq<Option<string>>, k: nat)
    ensures var reply := MockPrompt(MockAfter(Mock(responses, errors, 0), k)).0;
      && (k < |errors| ==> reply == Reply(None, errors[k]))
      && (|errors| <= k < |responses| ==> reply == Reply(Some(responses[k]), None))
      && (k >= |errors| && k >= |responses| ==> reply == Reply(Some(DefaultMockContent), None))
  {
    MockCursor(Mock(responses, errors, 0), k);
  }

  /** The `--tags` handling of `AskCmd`: when the flag is not blank, split it
      on commas, trim, and keep the non-blank parts. */
  function AskCmdTags(tagStr: string): (r: seq<string>)
    ensures forall k :: 0 <= k < |r| ==> |r[k]| > 0 && Trimmed(r[k]) && ',' !in r[k]
  {
    if TrimSpace(tagStr) != "" then
      CleanPartsAvoid(Split(tagStr, ','), ',');
      CleanParts(Split(tagStr, ','))
    else []
  }

  /** Parts that trim alike clean alike. */
  lemma {:induction false} CleanPartsPointwise(xs: seq<string>, ys: seq<string>)
    requires |xs| == |ys|
    requires forall k :: 0 <= k < |xs| ==> TrimSpace(xs[k]) == TrimSpace(ys[k])
    ensures CleanParts(xs) == CleanParts(ys)
  {
    if xs != [] {
      CleanPartsPointwise(xs[1..], ys[1..]);
    }
  }

  /** How `Split` sees a string padded with separator-free text. */
  predicate PaddedParts(xs: seq<string>, a: string, ps: seq<string>, b: string) {
    && |xs| == |ps| > 0
    && (|ps| == 1 ==> xs[0] == a + (ps[0] + b))
    && (|ps| > 1 ==> xs[0] == a + ps[0] && xs[|ps| - 1] == ps[|ps| - 1] + b)
    && (forall k :: 0 < k < |ps| - 1 ==> xs[k] == ps[k])
  }

  lemma SplitPadded(a: string, t: string, b: string, c: char)
    requires c !in a && c !in b
    ensures PaddedParts(Split(a + t + b, c), a, Split(t, c), b)
  {
    var ps := Split(t, c);
    var right := t + b;
    var whole := a + right;
    assert whole == a + t + b;
    var qs := Split(right, c);
    SplitPadRight(t, b, c);
    var xs := Split(whole, c);
    SplitPadLeft(a, right, c);
    PaddedShape(a, ps, b, qs, xs);
  }

  /** Padding the last part, then the first, gives padded parts. */
  lemma PaddedShape(a: string, ps: seq<string>, b: string, qs: seq<string>, xs: seq<string>)
    requires ps != []
    requires qs == ps[..|ps| - 1] + [ps[|ps| - 1] + b]
    requires xs == [a + qs[0]] + qs[1..]
    ensures PaddedParts(xs, a, ps, b)
  {
    var n := |ps|;
    forall k | 0 < k < n - 1 ensures xs[k] == ps[k] {
      assert xs[k] == qs[k];
    }
    if n == 1 {
      assert qs == [ps[0] + b];
    } else {
      assert xs[0] == a + ps[0];
      assert xs[n - 1] == qs[n - 1];
    }
  }

  /** Padding with white space does not change what the parts trim to. */
  lemma PaddedPartsTrim(xs: seq<string>, a: string, ps: seq<string>, b: string)
    requires AllSpace(a) && AllSpace(b)
    requires PaddedParts(xs, a, ps, b)
    ensures forall k :: 0 <= k < |xs| ==> TrimSpace(xs[k]) == TrimSpace(ps[k])
  {
    forall k | 0 <= k < |ps| ensures TrimSpace(xs[k]) == TrimSpace(ps[k]) {
      PaddedPartTrim(xs, a, ps, b, k);
    }
  }

  lemma PaddedPartTrim(xs: seq<string>, a: string, ps: seq<string>, b: string, k: nat)
    requires AllSpace(a) && AllSpace(b)
    requires PaddedParts(xs, a, ps, b) && k < |ps|
    ensures TrimSpace(xs[k]) == TrimSpace(ps[k])
  {
    var n := |ps|;
    var x, p := xs[k], ps[k];
    if k == 0 && n == 1 {
      assert x == a + (p + b);
      TrimBothPadded(a, p, b, x);
    } else if k == 0 {
      assert x == a + p;
      TrimSpaceOfLeftPadded(a, p);
    } else if k == n - 1 {
      assert x == p + b;
      TrimSpaceOfRightPadded(p, b);
    } else {
      assert x == p;
    }
  }

  lemma TrimBothPadded(a: string, p: string, b: string, x: string)
    requires AllSpace(a) && AllSpace(b) && x == a + (p + b)
    ensures TrimSpace(x) == TrimSpace(p)
  {
    TrimSpaceOfLeftPadded(a, p + b);
    TrimSpaceOfRightPadded(p, b);
  }

  /** The `ask` command's own tag splitting agrees with `parseTags`, although
      it splits the untrimmed flag value. */
  lemma AskCmdTagsIsParseTags(tagStr: string)
    ensures AskCmdTags(tagStr) == ParseTags(tagStr)
  {
    if TrimSpace(tagStr) != "" {
      CleanSplitOfTrim(tagStr);
    }
  }

  /** Trimming before the split does not change the cleaned parts. */
  lemma CleanSplitOfTrim(s: string)
    ensures CleanParts(Split(s, ',')) == CleanParts(Split(TrimSpace(s), ','))
  {
    var a, b := TrimSpaceDecompose(s);
    CleanSplitOfPadded(s, a, TrimSpace(s), b);
  }

  lemma CleanSplitOfPadded(s: string, a: string, t: string, b: string)
    requires s == a + t + b && AllSpace(a) && AllSpace(b)
    ensures CleanParts(Split(s, ',')) == CleanParts(Split(t, ','))
  {
    assert ',' !in a && ',' !in b by {
      assert !IsSpace(',');
    }
    SplitPadded(a, t, b, ',');
    PaddedPartsClean(Split(s, ','), a, Split(t, ','), b);
  }

  /** Padded parts clean to the same tags as the unpadded ones. */
  lemma PaddedPartsClean(xs: seq<string>, a: string, ps: seq<string>, b: string)
    requires AllSpace(a) && AllSpace(b)
    requires PaddedParts(xs, a, ps, b)
    ensures CleanParts(xs) == CleanParts(ps)
  {
    PaddedPartsTrim(xs, a, ps, b);
    CleanPartsPointwise(xs, ps);
  }

  /** The model context of `AskCmd`: the excerpts in query order, separated
      by a `---` line. */
  method JoinExcerpts(snips: seq<Snippet>) returns (r: string)
    ensures r == Join(Excerpts(snips), "\n---\n")
  {
    var b := "";
    var i := 0;
    while i < |snips|
      invariant 0 <= i <= |snips|
      invariant b == Join(Excerpts(snips)[..i], "\n---\n")
    {
      var es := Excerpts(snips);
      assert es[..i + 1] == es[..i] + [snips[i].excerpt];
      if i > 0 {
        b := b + "\n---\n";
        JoinSnoc(es[..i], snips[i].excerpt, "\n---\n");
      } else {
        assert es[..i + 1] == [snips[i].excerpt];
      }
      b := b + snips[i].excerpt;
      i := i + 1;
    }
    assert Excerpts(snips)[..i] == Excerpts(snips);
    r := b;
  }

  function Excerpts(snips: seq<Snippet>): (r: seq<string>)
    ensures |r| == |snips| && forall k :: 0 <= k < |snips| ==> r[k] == snips[k].excerpt
  {
    seq(|snips|, k requires 0 <= k < |snips| => snips[k].excerpt)
  }

  /** Read line by line, the context of single-line excerpts is the
      excerpts with a `---` line between each two, so every other line gives
      the excerpts back. */
  lemma JoinExcerptsRecoverable(snips: seq<Snippet>)
    requires snips != []
    requires forall k :: 0 <= k < |snips| ==> '\n' !in snips[k].excerpt
    ensures Split(Join(Excerpts(snips), "\n---\n"), '\n') == Intersperse(Excerpts(snips), "---")
    ensures EvenItems(Split(Join(Excerpts(snips), "\n---\n"), '\n')) == Excerpts(snips)
  {
    var es := Excerpts(snips);
    assert "\n---\n" == ['\n'] + "---" + ['\n'];
    JoinFramed(es, "---", '\n');
    SplitJoin(Intersperse(es, "---"), '\n');
    EvenItemsIntersperse(es, "---");
  }

  /** Characters stripped before looking for a role prefix. */
  const LeadingCut: set<char> := {'\n', '\r', ' ', '\t'}
  /** Characters stripped after a role prefix. */
  const PrefixCut: set<char> := {'\n', '\r', ' ', '\t', ':', '>'}

  /** Chat-template residue, tried in this order. */
  const RolePrefixes: seq<string> := ["**.assistant", "**assistant", "assistant:", "Assistant:", "<|assistant|>", "assistant"]

  /** Strips the first prefix of `ps` that `t` starts with, and what follows
      it from `PrefixCut`; `t` itself when none matches. */
  function StripFirstPrefix(t: string, ps: seq<string>): (r: string)
    ensures |r| <= |t|
  {
    if ps == [] then t
    else if HasPrefix(t, ps[0]) then TrimLeftIn(t[|ps[0]|..], PrefixCut)
    else StripFirstPrefix(t, ps[1..])
  }

  /** The stripped text is a suffix; it is `t` when no prefix matches, and
      otherwise starts outside `PrefixCut`. */
  lemma {:induction false} StripShape(t: string, ps: seq<string>)
    ensures var r := StripFirstPrefix(t, ps);
      && r == t[|t| - |r|..]
      && (r != t ==> r == [] || r[0] !in PrefixCut)
      && ((forall k :: 0 <= k < |ps| ==> !HasPrefix(t, ps[k])) ==> r == t)
  {
    if ps != [] && !HasPrefix(t, ps[0]) {
      StripShape(t, ps[1..]);
      assert forall k :: 1 <= k < |ps| ==> ps[1..][k - 1] == ps[k];
    }
  }

  /** `sanitizeLLMOutput`. */
  function SanitizeLLMOutput(s: string): (r: string)
    ensures |r| <= |s| && r == s[|s| - |r|..]
    ensures r == [] || r[0] !in LeadingCut
  {
    SanitizeWith(s, RolePrefixes)
  }

  /** The clean-up over any prefix list: leading blanks, then the first
      matching prefix and the separators after it. */
  function SanitizeWith(s: string, ps: seq<string>): (r: string)
    ensures |r| <= |s| && r == s[|s| - |r|..]
    ensures r == [] || r[0] !in LeadingCut
  {
    var t := TrimLeftIn(s, LeadingCut);
    StripShape(t, ps);
    StripFirstPrefix(t, ps)
  }

  /** A reply that has no leading blank and no role prefix passes unchanged. */
  lemma SanitizeKeepsPlainText(s: string)
    requires s == [] || s[0] !in LeadingCut
    requires forall k :: 0 <= k < |RolePrefixes| ==> !HasPrefix(s, RolePrefixes[k])
    ensures SanitizeLLMOutput(s) == s
  {
    SanitizeWithPlain(s, RolePrefixes);
  }

  lemma SanitizeWithPlain(s: string, ps: seq<string>)
    requires s == [] || s[0] !in LeadingCut
    requires forall k :: 0 <= k < |ps| ==> !HasPrefix(s, ps[k])
    ensures SanitizeWith(s, ps) == s
  {
    TrimLeftNone(s, LeadingCut);
    StripShape(s, ps);
  }

  /** Stripping at the first matching prefix. */
  lemma {:induction false} StripAt(t: string, ps: seq<string>, k: nat)
    requires k < |ps| && HasPrefix(t, ps[k])
    requires forall j :: 0 <= j < k ==> !HasPrefix(t, ps[j])
    ensures StripFirstPrefix(t, ps) == TrimLeftIn(t[|ps[k]|..], PrefixCut)
  {
    if k > 0 {
      assert ps[1..][k - 1] == ps[k];
      StripAt(t, ps[1..], k - 1);
    }
  }

  /** Dropping one leading character of the cut set. */
  lemma TrimLeftAt(x: string, i: nat, cut: set<char>)
    requires i < |x| && x[i] in cut
    ensures TrimLeftIn(x[i..], cut) == TrimLeftIn(x[i + 1..], cut)
  {
    assert x[i..][1..] == x[i + 1..];
  }

  lemma TrimLeftNone(x: string, cut: set<char>)
    requires x == [] || x[0] !in cut
    ensures TrimLeftIn(x, cut) == x
  {
  }

  /** A reply without leading blanks whose first matching role prefix is the
      `k`-th loses that prefix and the separators after it. */
  lemma SanitizeAt(s: string, k: nat)
    requires s == [] || s[0] !in LeadingCut
    requires k < |RolePrefixes| && HasPrefix(s, RolePrefixes[k])
    requires forall j :: 0 <= j < k ==> !HasPrefix(s, RolePrefixes[j])
    ensures SanitizeLLMOutput(s) == TrimLeftIn(s[|RolePrefixes[k]|..], PrefixCut)
  {
    SanitizeWithAt(s, RolePrefixes, k);
  }

  lemma SanitizeWithAt(s: string, ps: seq<string>, k: nat)
    requires s == [] || s[0] !in LeadingCut
    requires k < |ps| && HasPrefix(s, ps[k])
    requires forall j :: 0 <= j < k ==> !HasPrefix(s, ps[j])
    ensures SanitizeWith(s, ps) == TrimLeftIn(s[|ps[k]|..], PrefixCut)
  {
    TrimLeftNone(s, LeadingCut);
    StripAt(s, ps, k);
  }

  /** A reply whose first matching role prefix is followed by one separator
      and then text loses exactly the prefix and that separator. */
  lemma SanitizeStripsRole(s: string, k: nat, rest: string)
    requires s == [] || s[0] !in LeadingCut
    requires k < |RolePrefixes| && HasPrefix(s, RolePrefixes[k])
    requires forall j :: 0 <= j < k ==> !HasPrefix(s, RolePrefixes[j])
    requires |s| > |RolePrefixes[k]| && s[|RolePrefixes[k]|] in PrefixCut
    requires rest == s[|RolePrefixes[k]| + 1..] && (rest == [] || rest[0] !in PrefixCut)
    ensures SanitizeLLMOutput(s) == rest
  {
    SanitizeAt(s, k);
    TrimLeftAt(s, |RolePrefixes[k]|, PrefixCut);
    TrimLeftNone(rest, PrefixCut);
  }

  /** The examples the source's tests list, one lemma each. */
  lemma SanitizeRoleDot()
    ensures SanitizeLLMOutput("**.assistant\n- 重點1\n- 重點2") == "- 重點1\n- 重點2"
  {
    SanitizeStripsRole("**.assistant\n- 重點1\n- 重點2", 0, "- 重點1\n- 重點2");
  }

  lemma SanitizeRoleStars()
    ensures SanitizeLLMOutput("**assistant 重點") == "重點"
  {
    var s := "**assistant 重點";
    assert s[2] != RolePrefixes[0][2];
    SanitizeStripsRole(s, 1, "重點");
  }

  lemma SanitizeRoleColon()
    ensures SanitizeLLMOutput("assistant: 回覆內容") == "回覆內容"
  {
    var s := "assistant: 回覆內容";
    assert s[0] != RolePrefixes[0][0];
    assert s[0] != RolePrefixes[1][0];
    SanitizeStripsRole(s, 2, "回覆內容");
  }

  lemma SanitizeRoleCapital()
    ensures SanitizeLLMOutput("Assistant: 回覆內容") == "回覆內容"
  {
    var s := "Assistant: 回覆內容";
    assert s[0] != RolePrefixes[0][0];
    assert s[0] != RolePrefixes[1][0];
    assert s[0] != RolePrefixes[2][0];
    SanitizeStripsRole(s, 3, "回覆內容");
  }

  lemma SanitizeRoleTag()
    ensures SanitizeLLMOutput("<|assistant|> 回覆") == "回覆"
  {
    var s := "<|assistant|> 回覆";
    assert s[0] != RolePrefixes[0][0];
    assert s[0] != RolePrefixes[1][0];
    assert s[0] != RolePrefixes[2][0];
    assert s[0] != RolePrefixes[3][0];
    SanitizeStripsRole(s, 4, "回覆");
  }

  lemma SanitizeRoleBare()
    ensures SanitizeLLMOutput("assistant 回覆") == "回覆"
  {
    var s := "assistant 回覆";
    assert s[0] != RolePrefixes[0][0];
    assert s[0] != RolePrefixes[1][0];
    assert s[9] != RolePrefixes[2][9];
    assert s[0] != RolePrefixes[3][0];
    assert s[0] != RolePrefixes[4][0];
    SanitizeStripsRole(s, 5, "回覆");
  }

  lemma SanitizePlain()
    ensures SanitizeLLMOutput("正常內容") == "正常內容"
  {
    var s := "正常內容";
    assert forall j :: 0 <= j < |RolePrefixes| ==> s[0] != RolePrefixes[j][0];
    SanitizeKeepsPlainText(s);
  }

  const NoReplyText: string := "未取得 LLM 回覆。"
  const FallbackHeader: string := "未取得 LLM 回覆；以下為相關片段：\n"

  /** How many snippets the fallback lists: 3 for a non-positive request,
      never more than there are. */
  function FallbackCount(n: int, available: nat): (r: nat)
    ensures r <= available
    ensures n > 0 ==> r == Min(n, available)
    ensures n <= 0 ==> r == Min(3, available)
  {
    var m := if n <= 0 then 3 else n;
    if m > available then available else m
  }

  /** The text shown for one snippet: its trimmed excerpt, or its ID when the
      excerpt is blank. */
  function Label(s: Snippet): (r: string)
    ensures AllSpace(s.excerpt) ==> r == s.noteId
    ensures !AllSpace(s.excerpt) ==> r == TrimSpace(s.excerpt) && r != ""
  {
    var txt := TrimSpace(s.excerpt);
    if txt == "" then s.noteId else txt
  }

  function FallbackLines(snips: seq<Snippet>, n: nat): (r: seq<string>)
    requires n <= |snips|
    ensures |r| == n && forall k :: 0 <= k < n ==> r[k] == "- " + Label(snips[k])
  {
    seq(n, k requires 0 <= k < n => "- " + Label(snips[k]))
  }

  /** `fallbackFromSnippets`. */
  method FallbackFromSnippets(snips: seq<Snippet>, n: int) returns (r: string)
    ensures snips == [] ==> r == NoReplyText
    ensures snips != [] ==> r == FallbackHeader + Join(FallbackLines(snips, FallbackCount(n, |snips|)), "\n")
  {
    if |snips| == 0 {
      return NoReplyText;
    }
    var m := n;
    if m <= 0 {
      m := 3;
    }
    if m > |snips| {
      m := |snips|;
    }
    var b := FallbackList(snips, m);
    return FallbackHeader + b;
  }

  /** The loop of `fallbackFromSnippets` that follows the header: one
      `- label` line per snippet, with line breaks between them. */
  method FallbackList(snips: seq<Snippet>, m: nat) returns (b: string)
    requires m <= |snips|
    ensures b == Join(FallbackLines(snips, m), "\n")
  {
    ghost var lines := FallbackLines(snips, m);
    b := "";
    var i := 0;
    while i < m
      invariant 0 <= i <= m
      invariant b == FallbackBody(lines, i)
    {
      // The trimmed excerpt, or the ID when it is blank.
      var txt := Label(snips[i]);
      var nl := if i < m - 1 then "\n" else "";
      FallbackBodyStep(lines, i, txt, nl);
      b := b + "- ";
      b := b + txt;
      b := b + nl;
      i := i + 1;
    }
    FallbackBodyDone(lines);
  }

  lemma FallbackBodyDone(lines: seq<string>)
    ensures FallbackBody(lines, |lines|) == Join(lines, "\n")
  {
    assert lines[..|lines|] == lines;
  }

  /** The text the fallback loop has written after `i` lines. */
  function FallbackBody(lines: seq<string>, i: nat): string
    requires i <= |lines|
  {
    Join(lines[..i], "\n") + (if 0 < i < |lines| then "\n" else "")
  }

  lemma FallbackBodyStep(lines: seq<string>, i: nat, txt: string, nl: string)
    requires i < |lines| && lines[i] == "- " + txt
    requires nl == if i < |lines| - 1 then "\n" else ""
    ensures FallbackBody(lines, i) + "- " + txt + nl == FallbackBody(lines, i + 1)
  {
    var before := FallbackBody(lines, i);
    var b := before + "- " + txt + nl;
    var line := lines[i];
    assert b == before + line + nl;
    assert lines[..i + 1] == lines[..i] + [line];
    if i > 0 {
      JoinSnoc(lines[..i], line, "\n");
      assert FallbackBody(lines, i + 1) == Join(lines[..i], "\n") + "\n" + line + nl;
    } else {
      assert lines[..i + 1] == [line];
      assert FallbackBody(lines, i + 1) == line + nl;
    }
  }

  /** When no label holds a line break, the fallback lists exactly the
      requested number of lines after its header, in snippet order. */
  lemma FallbackLineCount(snips: seq<Snippet>, n: int)
    requires snips != []
    requires forall k :: 0 <= k < |snips| ==> '\n' !in Label(snips[k])
    ensures var lines := FallbackLines(snips, FallbackCount(n, |snips|));
      Split(Join(lines, "\n"), '\n') == lines && |lines| == FallbackCount(n, |snips|) && |lines| > 0
  {
    var lines := FallbackLines(snips, FallbackCount(n, |snips|));
    forall k | 0 <= k < |lines| ensures '\n' !in lines[k] {
      assert lines[k] == "- " + Label(snips[k]);
    }
    SplitJoin(lines, '\n');
  }
}
