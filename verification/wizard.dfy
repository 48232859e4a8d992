/** The conversational add wizard (tui/add_wizard.go): the free-text parser
    that pulls `#hashtags` and a `tags:` clause out of the user's message, the
    summary shown for confirmation, and the confirm/save state machine. */
module AddWizard {
  import opened Wrappers
  import opened Text
  import opened NoteStore

  // ---------------------------------------------------------------------
  // Hashtags: every match of `#([A-Za-z0-9_-]+)`, scanned left to right.

  /** A character of the class `[A-Za-z0-9_-]`. */
  predicate IsWordChar(c: char) {
    'A' <= c <= 'Z' || 'a' <= c <= 'z' || '0' <= c <= '9' || c == '_' || c == '-'
  }

  predicate IsWord(w: string) {
    |w| > 0 && forall i :: 0 <= i < |w| ==> IsWordChar(w[i])
  }

  /** A hashtag match starts at `i`: a `#` followed by a word character. */
  predicate HashAt(s: string, i: int) {
    0 <= i && i + 1 < |s| && s[i] == '#' && IsWordChar(s[i + 1])
  }

  predicate NoHashtag(s: string) {
    forall i :: 0 <= i < |s| ==> !HashAt(s, i)
  }

  /** Length of the longest prefix of word characters. */
  function WordRun(s: string): (n: nat)
    ensures n <= |s|
    ensures forall i :: 0 <= i < n ==> IsWordChar(s[i])
    ensures n < |s| ==> !IsWordChar(s[n])
  {
    if s == [] || !IsWordChar(s[0]) then 0 else 1 + WordRun(s[1..])
  }

  lemma {:induction false} WordRunOfPrefix(p: string, t: string)
    requires forall i :: 0 <= i < |p| ==> IsWordChar(p[i])
    requires t == [] || !IsWordChar(t[0])
    ensures WordRun(p + t) == |p|
    decreases |p|
  {
    if p != [] {
      assert (p + t)[1..] == p[1..] + t;
      WordRunOfPrefix(p[1..], t);
    }
  }

  /** Characters each hashtag takes out of the text: its `#` and its name. */
  function Marks(names: seq<string>): nat {
    if names == [] then 0 else |names[0]| + 1 + Marks(names[1..])
  }

  /** The captured names, in order, and the text with every match removed. */
  datatype HashScan = HashScan(names: seq<string>, rest: string)

  /** `FindAllStringSubmatch` followed by `ReplaceAllString(raw, "")` for the
      hashtag pattern. Matches are greedy and do not overlap. */
  function ScanHashtags(s: string): (r: HashScan)
    ensures forall k :: 0 <= k < |r.names| ==> IsWord(r.names[k])
    ensures |r.rest| <= |s|
    decreases |s|
  {
    if s == [] then HashScan([], [])
    else if HashAt(s, 0) then
      var n := WordRun(s[1..]);
      var t := ScanHashtags(s[1 + n..]);
      assert ([s[1..1 + n]] + t.names)[1..] == t.names;
      HashScan([s[1..1 + n]] + t.names, t.rest)
    else
      var t := ScanHashtags(s[1..]);
      HashScan(t.names, [s[0]] + t.rest)
  }

  /** No match survives in what is left, and each match takes its `#` and
      its name out of the text. */
  lemma {:induction false} ScanHashtagsShape(s: string)
    ensures NoHashtag(ScanHashtags(s).rest)
    ensures |s| == |ScanHashtags(s).rest| + Marks(ScanHashtags(s).names)
    ensures var rest := ScanHashtags(s).rest;
      rest != [] && IsWordChar(rest[0]) ==> IsWordChar(s[0])
    decreases |s|
  {
    if s != [] {
      if HashAt(s, 0) {
        var n := WordRun(s[1..]);
        var t := ScanHashtags(s[1 + n..]);
        ScanHashtagsShape(s[1 + n..]);
        assert ([s[1..1 + n]] + t.names)[1..] == t.names;
        assert s[1 + n..] == [] || !IsWordChar(s[1 + n..][0]);
      } else {
        var t := ScanHashtags(s[1..]);
        ScanHashtagsShape(s[1..]);
        assert s[0] != '#' || t.rest == [] || !IsWordChar(t.rest[0]);
        NoHashtagCons(s[0], t.rest);
      }
    }
  }

  /** A character in front of hashtag-free text starts no match unless it is
      a `#` before a word character. */
  lemma NoHashtagCons(c: char, r: string)
    requires NoHashtag(r)
    requires c != '#' || r == [] || !IsWordChar(r[0])
    ensures NoHashtag([c] + r)
  {
    var rest := [c] + r;
    assert !HashAt(rest, 0);
    forall i | 1 <= i < |rest| ensures !HashAt(rest, i) {
      assert !HashAt(r, i - 1);
    }
  }

  /** Text without a hashtag passes through the scan untouched. */
  lemma {:induction false} ScanHashtagsOfFree(s: string)
    requires NoHashtag(s)
    ensures ScanHashtags(s) == HashScan([], s)
    decreases |s|
  {
    if s != [] {
      assert forall i :: 0 <= i < |s[1..]| ==> (HashAt(s[1..], i) ==> HashAt(s, i + 1));
      ScanHashtagsOfFree(s[1..]);
      assert s == [s[0]] + s[1..];
    }
  }

  /** Scanning what the scan left behind finds nothing more. */
  lemma ScanHashtagsIdempotent(s: string)
    ensures ScanHashtags(ScanHashtags(s).rest) == HashScan([], ScanHashtags(s).rest)
  {
    ScanHashtagsShape(s);
    ScanHashtagsOfFree(ScanHashtags(s).rest);
  }

  /** Text free of `#` in front of the rest is kept and starts no match. */
  lemma {:induction false} ScanHashtagsPlain(a: string, b: string)
    requires '#' !in a
    ensures ScanHashtags(a + b) == HashScan(ScanHashtags(b).names, a + ScanHashtags(b).rest)
    decreases |a|
  {
    if a == [] {
      assert a + b == b;
    } else {
      assert (a + b)[0] == a[0] != '#';
      assert (a + b)[1..] == a[1..] + b;
      ScanHashtagsPlain(a[1..], b);
    }
  }

  /** A `#name` followed by a non-word character is one match. */
  lemma ScanHashtagsLead(w: string, b: string)
    requires IsWord(w)
    requires b == [] || !IsWordChar(b[0])
    ensures ScanHashtags("#" + w + b) == HashScan([w] + ScanHashtags(b).names, ScanHashtags(b).rest)
  {
    var s := "#" + w + b;
    assert s[1..] == w + b;
    WordRunOfPrefix(w, b);
    var n := WordRun(s[1..]);
    assert s[1..1 + n] == w;
    assert s[1 + n..] == b;
  }

  // ---------------------------------------------------------------------
  // The `tags:` clause: the leftmost match of
  // `(?i)(tags|標籤)\s*[:：]\s*([#A-Za-z0-9_\-\s,]+)` in the original text.
  // Everything is stated over positions of the one text, without slicing.

  /** RE2's `\s`: tab, newline, form feed, carriage return and space. */
  predicate IsReSpace(c: char) {
    c == '\t' || c == '\n' || c == '\U{000C}' || c == '\r' || c == ' '
  }

  /** A character of the list class `[#A-Za-z0-9_\-\s,]`. */
  predicate IsClauseChar(c: char) {
    c == '#' || IsWordChar(c) || IsReSpace(c) || c == ','
  }

  /** `tags` in any ASCII case. */
  predicate IsTagsWord(kw: string) {
    |kw| == 4 && Lower(kw[0]) == 't' && Lower(kw[1]) == 'a' && Lower(kw[2]) == 'g' && Lower(kw[3]) == 's'
  }

  lemma TagsWordChars(kw: string)
    requires IsTagsWord(kw)
    ensures forall c :: c in kw ==> IsWordChar(c)
  {
    forall c | c in kw ensures IsWordChar(c) {
      var i :| 0 <= i < 4 && kw[i] == c;
    }
  }

  /** Length of the keyword (`tags` in any ASCII case, or `標籤`) at `i`, or 0. */
  function KeywordAt(s: string, i: nat): (n: nat)
    requires i <= |s|
    ensures n == 0 || n == 2 || n == 4
    ensures i + n <= |s|
    ensures n > 0 ==> s[i] == 't' || s[i] == 'T' || s[i] == '標'
  {
    if i + 4 <= |s| && Lower(s[i]) == 't' && Lower(s[i + 1]) == 'a' && Lower(s[i + 2]) == 'g' && Lower(s[i + 3]) == 's' then 4
    else if i + 2 <= |s| && s[i] == '標' && s[i + 1] == '籤' then 2
    else 0
  }

  /** Where the run of `\s` characters starting at `i` ends. */
  function BlankEnd(s: string, i: nat): (j: nat)
    requires i <= |s|
    ensures i <= j <= |s|
    ensures forall k :: i <= k < j ==> IsReSpace(s[k])
    ensures j < |s| ==> !IsReSpace(s[j])
    decreases |s| - i
  {
    if i == |s| || !IsReSpace(s[i]) then i else BlankEnd(s, i + 1)
  }

  /** Where the run of list characters starting at `i` ends. */
  function ClassEnd(s: string, i: nat): (j: nat)
    requires i <= |s|
    ensures i <= j <= |s|
    ensures forall k :: i <= k < j ==> IsClauseChar(s[k])
    ensures j < |s| ==> !IsClauseChar(s[j])
    decreases |s| - i
  {
    if i == |s| || !IsClauseChar(s[i]) then i else ClassEnd(s, i + 1)
  }

  /** A clause match: the text `start..end`, whose list group is the
      `listLen` characters before `end`. */
  datatype Clause = Clause(start: nat, end: nat, listLen: nat)

  /** The clause regexp anchored at index `i`: keyword, blanks, colon, then
      `\s*` and the list group. Both are greedy; when the class run after the
      blanks is empty, the blanks give their last character back to the group. */
  function ClauseAt(s: string, i: nat): (r: Option<Clause>)
    requires i <= |s|
    ensures r.Some? ==> r.value.start == i && KeywordAt(s, i) > 0
    ensures r.Some? ==> 0 < r.value.listLen <= r.value.end - i && r.value.end <= |s|
    ensures r.Some? ==> forall k :: r.value.end - r.value.listLen <= k < r.value.end ==> IsClauseChar(s[k])
    ensures r.Some? && r.value.end < |s| ==> !IsClauseChar(s[r.value.end])
  {
    var kw := KeywordAt(s, i);
    if kw == 0 then None
    else
      var p := BlankEnd(s, i + kw);
      if p < |s| && (s[p] == ':' || s[p] == '：') then
        var w := BlankEnd(s, p + 1);
        var e := ClassEnd(s, w);
        if e > w then Some(Clause(i, e, e - w))
        else if w > p + 1 then Some(Clause(i, w, 1))
        else None
      else None
  }

  /** The matched text of a clause. */
  function WholeText(s: string, c: Clause): string
    requires c.start <= c.end <= |s|
  {
    s[c.start..c.end]
  }

  /** The list group of a clause. */
  function ListText(s: string, c: Clause): string
    requires c.listLen <= c.end <= |s|
  {
    s[c.end - c.listLen..c.end]
  }

  /** The list group of an anchored match holds only list characters. */
  lemma ListTextChars(s: string, i: nat)
    requires i <= |s| && ClauseAt(s, i).Some?
    ensures forall c :: c in ListText(s, ClauseAt(s, i).value) ==> IsClauseChar(c)
  {
    var r := ClauseAt(s, i).value;
    forall c | c in ListText(s, r) ensures IsClauseChar(c) {
      var j :| 0 <= j < r.listLen && ListText(s, r)[j] == c;
      assert c == s[r.end - r.listLen + j];
    }
  }

  /** The first index from `i` on that holds a match, or `|xs|`. */
  function FirstFound(xs: seq<Option<Clause>>, i: nat): (r: nat)
    requires i <= |xs|
    ensures i <= r <= |xs|
    ensures r < |xs| ==> xs[r].Some?
    ensures forall k :: i <= k < r ==> xs[k].None?
    decreases |xs| - i
  {
    if i == |xs| || xs[i].Some? then i else FirstFound(xs, i + 1)
  }

  /** The anchored match tried at every index of the text, end included. */
  function Candidates(s: string): (r: seq<Option<Clause>>)
    ensures |r| == |s| + 1
    ensures forall k :: 0 <= k <= |s| ==> r[k] == ClauseAt(s, k)
  {
    seq(|s| + 1, k requires 0 <= k <= |s| => ClauseAt(s, k))
  }

  /** `FindStringSubmatch`: the leftmost clause of the text, if any. */
  function FindClause(s: string): (r: Option<Clause>)
    ensures r.Some? ==> r.value.start <= |s| && ClauseAt(s, r.value.start) == r
    ensures r.Some? ==> forall k :: 0 <= k < r.value.start ==> ClauseAt(s, k).None?
    ensures r.None? ==> forall k :: 0 <= k <= |s| ==> ClauseAt(s, k).None?
  {
    var xs := Candidates(s);
    var k := FirstFound(xs, 0);
    if k < |xs| then xs[k] else None
  }

  /** A run of list characters reaching the end of the text ends there. */
  lemma {:induction false} ClassEndAll(s: string, i: nat)
    requires i <= |s| && forall k :: i <= k < |s| ==> IsClauseChar(s[k])
    ensures ClassEnd(s, i) == |s|
    decreases |s| - i
  {
    if i < |s| {
      ClassEndAll(s, i + 1);
    }
  }

  /** `tags: <list>` at `i`, with a list that starts right after the blank
      and runs to the end of the text, is a clause covering all of it. */
  lemma ClauseAtTail(s: string, i: nat, kw: string, list: string)
    requires IsTagsWord(kw)
    requires |list| > 0 && (forall c :: c in list ==> IsClauseChar(c)) && !IsReSpace(list[0])
    requires i <= |s| && s[i..] == kw + ": " + list
    ensures ClauseAt(s, i) == Some(Clause(i, |s|, |list|))
  {
    var t := kw + ": " + list;
    assert forall k :: 0 <= k < |t| ==> s[i + k] == t[k] by {
      forall k | 0 <= k < |t| ensures s[i + k] == t[k] {
        assert s[i..][k] == s[i + k];
      }
    }
    assert s[i] == kw[0] && s[i + 1] == kw[1] && s[i + 2] == kw[2] && s[i + 3] == kw[3];
    assert KeywordAt(s, i) == 4;
    assert s[i + 4] == ':';
    assert BlankEnd(s, i + 4) == i + 4;
    assert s[i + 5] == ' ' && s[i + 6] == list[0];
    assert BlankEnd(s, i + 6) == i + 6;
    assert BlankEnd(s, i + 5) == i + 6;
    forall k | i + 6 <= k < |s| ensures IsClauseChar(s[k]) {
      assert s[k] == list[k - i - 6];
      assert list[k - i - 6] in list;
    }
    ClassEndAll(s, i + 6);
  }

  /** A clause covering all of `b` is the first clause of `a + b` when no
      character of `a` can begin the keyword. */
  lemma FindClauseAfter(a: string, b: string, listLen: nat)
    requires forall i :: 0 <= i < |a| ==> a[i] != 't' && a[i] != 'T' && a[i] != '標'
    requires ClauseAt(a + b, |a|) == Some(Clause(|a|, |a| + |b|, listLen))
    ensures FindClause(a + b) == Some(Clause(|a|, |a| + |b|, listLen))
  {
    var s := a + b;
    forall k | 0 <= k < |a| ensures ClauseAt(s, k).None? {
      assert s[k] == a[k];
    }
    assert Candidates(s)[|a|].Some?;
  }

  // ---------------------------------------------------------------------
  // Items of the list group.

  /** The `FieldsFunc` separators: comma, space, tab. */
  predicate IsItemSep(c: char) {
    c == ',' || c == ' ' || c == '\t'
  }

  /** A character an item can hold: the list class without the separators. */
  predicate IsTagChar(c: char) {
    IsClauseChar(c) && !IsItemSep(c)
  }

  /** Text made of tag characters only. */
  predicate TagText(t: string) {
    forall c :: c in t ==> IsTagChar(c)
  }

  /** A tag as the parser emits it: non-empty, lower case, tag characters. */
  predicate IsParsedTag(t: string) {
    |t| > 0 && IsLowerCase(t) && TagText(t)
  }

  lemma LowerKeepsTagChars(t: string)
    requires TagText(t)
    ensures TagText(ToLower(t))
  {
    forall c | c in ToLower(t) ensures IsTagChar(c) {
      var i :| 0 <= i < |t| && ToLower(t)[i] == c;
      assert t[i] in t;
    }
  }

  /** One field: one leading `#` dropped, trimmed, lower-cased; blank gives none. */
  function ItemOf(f: string): (r: seq<string>)
    requires TagText(f)
    ensures |r| <= 1
    ensures forall k :: 0 <= k < |r| ==> IsParsedTag(r[k])
    ensures r == [] <==> AllSpace(TrimPrefix(f, "#"))
  {
    var p := TrimPrefix(f, "#");
    assert forall c :: c in p ==> c in f;
    var t := TrimSpace(p);
    TrimSpaceWithin(p);
    LowerKeepsTagChars(t);
    ToLowerIsLower(t);
    if t == "" then [] else [ToLower(t)]
  }

  function ItemsOf(fs: seq<string>): (r: seq<string>)
    requires forall k :: 0 <= k < |fs| ==> TagText(fs[k])
    ensures |r| <= |fs|
    ensures forall k :: 0 <= k < |r| ==> IsParsedTag(r[k])
  {
    if fs == [] then [] else ItemOf(fs[0]) + ItemsOf(fs[1..])
  }

  /** The tags the list group contributes, in order, duplicates kept. */
  function ClauseItems(list: string): (r: seq<string>)
    requires forall c :: c in list ==> IsClauseChar(c)
    ensures forall k :: 0 <= k < |r| ==> IsParsedTag(r[k])
  {
    var fs := FieldsWhere(list, IsItemSep);
    FieldsWithin(list, IsItemSep);
    ItemsOf(fs)
  }

  /** Every field is a stretch of the text, so it holds only its characters. */
  lemma {:induction false} FieldsWithin(s: string, isSep: char -> bool)
    ensures forall k :: 0 <= k < |FieldsWhere(s, isSep)| ==> (forall c :: c in FieldsWhere(s, isSep)[k] ==> c in s)
    decreases |s|
  {
    if s != [] {
      if isSep(s[0]) {
        FieldsWithin(s[1..], isSep);
      } else {
        var n := RunLength(s, isSep);
        FieldsWithin(s[n..], isSep);
        assert forall c :: c in s[n..] ==> c in s;
        assert forall c :: c in s[..n] ==> c in s;
      }
    }
  }

  // ---------------------------------------------------------------------
  // The tag set: deduplicated and sorted.

  predicate StrictlySorted(t: seq<string>) {
    forall i, j :: 0 <= i < j < |t| ==> StrLess(t[i], t[j])
  }

  /** Insert one tag into a strictly sorted list, keeping it strictly sorted. */
  function InsertTag(x: string, t: seq<string>): (r: seq<string>)
    requires StrictlySorted(t)
    ensures StrictlySorted(r)
    ensures forall y :: y in r <==> y == x || y in t
  {
    if t == [] then [x]
    else if x == t[0] then t
    else if StrLess(x, t[0]) then
      forall j | 0 <= j < |t| ensures StrLess(x, t[j]) {
        if j > 0 { StrLessTransitive(x, t[0], t[j]); }
      }
      [x] + t
    else
      StrLessTotal(x, t[0]);
      var u := InsertTag(x, t[1..]);
      assert forall y :: y in t[1..] ==> StrLess(t[0], y);
      assert forall j :: 0 <= j < |u| ==> StrLess(t[0], u[j]);
      assert t == [t[0]] + t[1..];
      [t[0]] + u
  }

  /** The map-then-sort step: the distinct tags in ascending order. */
  function SortTags(ts: seq<string>): (r: seq<string>)
    ensures StrictlySorted(r)
    ensures forall y :: y in r <==> y in ts
  {
    if ts == [] then [] else InsertTag(ts[0], SortTags(ts[1..]))
  }

  /** The head of a strictly sorted list is below everything after it. */
  lemma SortedHead(a: seq<string>, y: string)
    requires StrictlySorted(a) && a != [] && y in a[1..]
    ensures StrLess(a[0], y) && y != a[0]
  {
    var j :| 0 <= j < |a[1..]| && a[1..][j] == y;
    assert a[j + 1] == y;
    StrLessIrreflexive(a[0]);
  }

  lemma HeadIn(a: seq<string>)
    ensures a != [] ==> a[0] in a
  {
  }

  /** A strictly sorted list is fixed by its elements, so the result does not
      depend on the order the tags were collected in (Go's map order). */
  lemma {:induction false} SortedUnique(a: seq<string>, b: seq<string>)
    requires StrictlySorted(a) && StrictlySorted(b)
    requires forall y :: y in a <==> y in b
    ensures a == b
    decreases |a|
  {
    if a != [] && b != [] {
      assert a == [a[0]] + a[1..] && b == [b[0]] + b[1..];
      if a[0] != b[0] {
        assert a[0] in b && b[0] in a;
        SortedHead(b, a[0]);
        SortedHead(a, b[0]);
        StrLessAsymmetric(b[0], a[0]);
      }
      forall y ensures y in a[1..] <==> y in b[1..] {
        if y in a[1..] {
          SortedHead(a, y);
          assert y in a && y in b && y != b[0];
        }
        if y in b[1..] {
          SortedHead(b, y);
          assert y in b && y in a && y != a[0];
        }
      }
      SortedUnique(a[1..], b[1..]);
    } else {
      HeadIn(a);
      HeadIn(b);
    }
  }

  lemma SortTagsOrderFree(p: seq<string>, q: seq<string>)
    requires forall y :: y in p <==> y in q
    ensures SortTags(p) == SortTags(q)
  {
    SortedUnique(SortTags(p), SortTags(q));
  }

  // ---------------------------------------------------------------------
  // parseAddInput

  function Lowered(names: seq<string>): (r: seq<string>)
    ensures |r| == |names|
    ensures forall k :: 0 <= k < |r| ==> r[k] == ToLower(names[k])
  {
    seq(|names|, k requires 0 <= k < |names| => ToLower(names[k]))
  }

  /** Tags named by hashtags, lower-cased. */
  function HashTagsOf(s: string): (r: seq<string>)
    ensures forall k :: 0 <= k < |r| ==> IsParsedTag(r[k])
  {
    var names := ScanHashtags(s).names;
    forall k | 0 <= k < |names| ensures IsParsedTag(ToLower(names[k])) {
      ToLowerIsLower(names[k]);
    }
    Lowered(names)
  }

  /** Tags named by the leftmost `tags:` clause of the original text. */
  function ClauseTagsOf(s: string): (r: seq<string>)
    ensures forall k :: 0 <= k < |r| ==> IsParsedTag(r[k])
  {
    match FindClause(s)
    case None => []
    case Some(c) =>
      ListTextChars(s, c.start);
      ClauseItems(ListText(s, c))
  }

  /** The text with the hashtags, then the clause text (where it still
      occurs verbatim), removed. */
  function Remainder(s: string): (r: string)
    ensures |r| <= |ScanHashtags(s).rest| <= |s|
  {
    var rest := ScanHashtags(s).rest;
    match FindClause(s)
    case None => rest
    case Some(c) =>
      var whole := WholeText(s, c);
      ReplaceAllByEmptyShrinks(rest, whole);
      ReplaceAll(rest, whole, "")
  }

  /** Without a clause only the hashtags go. The clause text is removed only
      where it still occurs after the hashtags are gone; if it does, the text
      gets shorter. */
  lemma RemainderCases(s: string)
    ensures FindClause(s).None? ==> Remainder(s) == ScanHashtags(s).rest
    ensures var rest, c := ScanHashtags(s).rest, FindClause(s);
      c.Some? && !Contains(rest, WholeText(s, c.value)) ==> Remainder(s) == rest
    ensures var rest, c := ScanHashtags(s).rest, FindClause(s);
      c.Some? && Contains(rest, WholeText(s, c.value)) ==> |Remainder(s)| < |rest|
  {
    var rest, c := ScanHashtags(s).rest, FindClause(s);
    if c.Some? {
      var whole := WholeText(s, c.value);
      ReplaceAllByEmptyShrinks(rest, whole);
      if !Contains(rest, whole) {
        ReplaceAllAbsent(rest, whole, "");
      }
    }
  }

  /** The content: the remainder with the surrounding blanks trimmed. */
  function Content(s: string): (r: string)
    ensures Trimmed(r) && |r| <= |s|
  {
    Trim(Remainder(s))
  }

  function Trim(raw: string): (r: string)
    ensures Trimmed(r) && |r| <= |raw|
  {
    TrimSpace(raw)
  }

  /** The tag set: hashtags and clause items, distinct and in ascending order. */
  function TagsOf(s: string): (r: seq<string>)
    ensures StrictlySorted(r)
    ensures forall k :: 0 <= k < |r| ==> IsParsedTag(r[k])
    ensures forall t :: t in r <==> t in HashTagsOf(s) || t in ClauseTagsOf(s)
  {
    var collected := HashTagsOf(s) + ClauseTagsOf(s);
    var tags := SortTags(collected);
    assert forall k :: 0 <= k < |tags| ==> tags[k] in collected;
    tags
  }

  datatype Parsed = Parsed(content: string, tags: seq<string>)

  /** `parseAddInput`. */
  function ParseAddInput(s: string): (r: Parsed)
    ensures Trimmed(r.content) && |r.content| <= |s|
    ensures StrictlySorted(r.tags)
    ensures forall k :: 0 <= k < |r.tags| ==> IsParsedTag(r.tags[k])
    ensures forall t :: t in r.tags <==> t in HashTagsOf(s) || t in ClauseTagsOf(s)
  {
    Parsed(Content(s), TagsOf(s))
  }

  // ---------------------------------------------------------------------
  // Worked inputs from the wizard's tests.

  /** A plain prefix, then one `#name` ending at a non-word character. */
  lemma ScanHashtagsAfter(a: string, w: string, b: string)
    requires '#' !in a && IsWord(w)
    requires b == [] || !IsWordChar(b[0])
    ensures ScanHashtags(a + ("#" + w + b)) == HashScan([w] + ScanHashtags(b).names, a + ScanHashtags(b).rest)
  {
    ScanHashtagsPlain(a, "#" + w + b);
    ScanHashtagsLead(w, b);
  }

  /** Text without `#` holds no hashtag. */
  lemma ScanHashtagsNone(b: string)
    requires '#' !in b
    ensures ScanHashtags(b) == HashScan([], b)
  {
    ScanHashtagsPlain(b, []);
    assert b + [] == b;
  }

  /** A word is made of tag characters. */
  lemma WordIsTagText(f: string)
    requires IsWord(f)
    ensures TagText(f)
  {
    forall c | c in f ensures IsTagChar(c) {
      var i :| 0 <= i < |f| && f[i] == c;
    }
  }

  /** A word field is its own lower-cased tag. */
  lemma ItemOfWord(f: string)
    requires IsWord(f)
    ensures TagText(f) && ItemOf(f) == [ToLower(f)]
  {
    WordIsTagText(f);
    assert f[..1][0] == f[0] != '#';
    assert !HasPrefix(f, "#");
    TrimSpaceOfTrimmed(f);
  }

  lemma AllWordsTagText(fs: seq<string>)
    requires forall k :: 0 <= k < |fs| ==> IsWord(fs[k])
    ensures forall k :: 0 <= k < |fs| ==> TagText(fs[k])
  {
    forall k | 0 <= k < |fs| ensures TagText(fs[k]) {
      WordIsTagText(fs[k]);
    }
  }

  lemma LoweredCons(fs: seq<string>)
    requires fs != []
    ensures Lowered(fs) == [ToLower(fs[0])] + Lowered(fs[1..])
  {
    var r := [ToLower(fs[0])] + Lowered(fs[1..]);
    assert |r| == |fs|;
    forall k | 0 <= k < |fs| ensures r[k] == Lowered(fs)[k] {
      if k > 0 { assert r[k] == Lowered(fs[1..])[k - 1]; }
    }
  }

  lemma {:induction false} ItemsOfWords(fs: seq<string>)
    requires forall k :: 0 <= k < |fs| ==> IsWord(fs[k])
    ensures forall k :: 0 <= k < |fs| ==> TagText(fs[k])
    ensures ItemsOf(fs) == Lowered(fs)
  {
    AllWordsTagText(fs);
    if fs != [] {
      var t := fs[1..];
      assert forall k :: 0 <= k < |t| ==> IsWord(t[k]) by {
        forall k | 0 <= k < |t| ensures IsWord(t[k]) { assert t[k] == fs[k + 1]; }
      }
      ItemOfWord(fs[0]);
      ItemsOfWords(t);
      LoweredCons(fs);
    }
  }

  /** Words joined by item separators are the clause's items, lower-cased. */
  lemma ClauseItemsOfWords(ws: seq<string>, sep: string, list: string)
    requires forall k :: 0 <= k < |ws| ==> IsWord(ws[k])
    requires |sep| > 0 && forall i :: 0 <= i < |sep| ==> IsItemSep(sep[i])
    requires list == Join(ws, sep) && forall c :: c in list ==> IsClauseChar(c)
    ensures ClauseItems(list) == Lowered(ws)
  {
    FieldsWhereJoin(ws, sep, IsItemSep);
    ItemsOfWords(ws);
  }

  /** A character in neither the words nor the separator is not in their join. */
  lemma {:induction false} JoinAvoids(ws: seq<string>, sep: string, ch: char)
    requires forall k :: 0 <= k < |ws| ==> ch !in ws[k]
    requires ch !in sep
    ensures ch !in Join(ws, sep)
    decreases |ws|
  {
    if |ws| > 1 {
      JoinAvoids(ws[1..], sep, ch);
    }
  }

  /** Words joined by item separators make a list group that starts with a
      word character. */
  lemma {:induction false} JoinClauseChars(ws: seq<string>, sep: string)
    requires ws != [] && forall k :: 0 <= k < |ws| ==> IsWord(ws[k])
    requires forall i :: 0 <= i < |sep| ==> IsItemSep(sep[i])
    ensures forall c :: c in Join(ws, sep) ==> IsClauseChar(c)
    ensures |Join(ws, sep)| > 0 && IsWordChar(Join(ws, sep)[0])
    decreases |ws|
  {
    var w := ws[0];
    assert forall c :: c in w ==> IsClauseChar(c) by {
      forall c | c in w ensures IsClauseChar(c) {
        var i :| 0 <= i < |w| && w[i] == c;
      }
    }
    if |ws| > 1 {
      JoinClauseChars(ws[1..], sep);
      var rest := Join(ws[1..], sep);
      assert forall c :: c in sep ==> IsClauseChar(c) by {
        forall c | c in sep ensures IsClauseChar(c) {
          var i :| 0 <= i < |sep| && sep[i] == c;
        }
      }
      assert Join(ws, sep) == w + sep + rest;
      assert Join(ws, sep)[0] == w[0];
    }
  }

  /** Text that cannot begin the keyword, then a `tags: <list>` tail: the
      tail is the leftmost clause and its list group is `list`. */
  lemma TrailingClause(a: string, b: string, kw: string, list: string)
    requires forall i :: 0 <= i < |a| ==> a[i] != 't' && a[i] != 'T' && a[i] != '標'
    requires IsTagsWord(kw)
    requires |list| > 0 && (forall c :: c in list ==> IsClauseChar(c)) && !IsReSpace(list[0])
    requires b == kw + ": " + list
    ensures FindClause(a + b) == Some(Clause(|a|, |a| + |b|, |list|))
    ensures WholeText(a + b, Clause(|a|, |a| + |b|, |list|)) == b
    ensures ListText(a + b, Clause(|a|, |a| + |b|, |list|)) == list
  {
    assert (a + b)[|a|..] == b;
    ClauseAtTail(a + b, |a|, kw, list);
    FindClauseAfter(a, b, |list|);
    assert (a + b)[|a|..|a| + |b|] == b;
    assert b[|b| - |list|..] == list;
    assert (a + b)[|a| + |b| - |list|..|a| + |b|] == b[|b| - |list|..];
  }

  /** Without hashtags, a clause that takes up the end of the text is cut
      off, leaving what precedes it. */
  lemma TrailingRemainder(a: string, b: string)
    requires '#' !in a + b && b != [] && b[0] !in a
    requires FindClause(a + b).Some? && WholeText(a + b, FindClause(a + b).value) == b
    ensures Remainder(a + b) == a
  {
    ScanHashtagsNone(a + b);
    ReplaceAllPlain(a, b, b, "");
    ReplaceAllSelf(b, "");
    assert a + [] == a;
  }

  /** ... and the content is that text, trimmed. */
  lemma TrailingContent(a: string, b: string, lead: string, pad: string)
    requires a == lead + pad && Trimmed(lead) && AllSpace(pad)
    requires '#' !in a + b && b != [] && b[0] !in a
    requires FindClause(a + b).Some? && WholeText(a + b, FindClause(a + b).value) == b
    ensures Content(a + b) == lead
  {
    TrailingRemainder(a, b);
    TrimSpaceOfRightPadded(lead, pad);
    TrimSpaceOfTrimmed(lead);
  }

  /** Without hashtags, a clause listing words gives those words as tags. */
  lemma TrailingTags(s: string, ws: seq<string>, sep: string)
    requires '#' !in s
    requires forall k :: 0 <= k < |ws| ==> IsWord(ws[k])
    requires |sep| > 0 && forall i :: 0 <= i < |sep| ==> IsItemSep(sep[i])
    requires FindClause(s).Some? && ListText(s, FindClause(s).value) == Join(ws, sep)
    ensures TagsOf(s) == SortTags(Lowered(ws))
  {
    ScanHashtagsNone(s);
    var c := FindClause(s).value;
    ListTextChars(s, c.start);
    ClauseItemsOfWords(ws, sep, ListText(s, c));
    assert HashTagsOf(s) + ClauseTagsOf(s) == Lowered(ws);
  }

  /** A plain lead, blanks, and a `tags:` clause listing words: the content
      is the lead and the tags are the words, lower-cased, deduplicated and
      sorted. */
  lemma ClauseHasNoHash(kw: string, ws: seq<string>, sep: string)
    requires IsTagsWord(kw)
    requires forall k :: 0 <= k < |ws| ==> IsWord(ws[k])
    requires |sep| > 0 && forall i :: 0 <= i < |sep| ==> IsItemSep(sep[i])
    ensures '#' !in kw + ": " + Join(ws, sep)
  {
    JoinAvoids(ws, sep, '#');
    TagsWordChars(kw);
    assert '#' !in kw + ": ";
  }

  lemma ParseTrailingClause(lead: string, pad: string, kw: string, ws: seq<string>, sep: string)
    requires '#' !in lead + pad && Trimmed(lead) && AllSpace(pad)
    requires forall i :: 0 <= i < |lead + pad| ==> (lead + pad)[i] != 't' && (lead + pad)[i] != 'T' && (lead + pad)[i] != '標'
    requires IsTagsWord(kw)
    requires ws != [] && forall k :: 0 <= k < |ws| ==> IsWord(ws[k])
    requires |sep| > 0 && forall i :: 0 <= i < |sep| ==> IsItemSep(sep[i])
    ensures ParseAddInput(lead + pad + (kw + ": " + Join(ws, sep))) == Parsed(lead, SortTags(Lowered(ws)))
  {
    var a, list := lead + pad, Join(ws, sep);
    var b := kw + ": " + list;
    JoinClauseChars(ws, sep);
    TrailingClause(a, b, kw, list);
    ClauseHasNoHash(kw, ws, sep);
    assert '#' !in a + b;
    assert b[0] !in a;
    TrailingContent(a, b, lead, pad);
    TrailingTags(a + b, ws, sep);
  }
}

