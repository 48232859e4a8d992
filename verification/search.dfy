/** The in-memory full-text index (search/search.go): notes are kept by ID,
    and a query keeps the notes whose lower-cased content contains the
    lower-cased, trimmed query and, when tags are given, that carry any of
    them, case-insensitively. */
module Search {
  import opened Wrappers
  import opened Text
  import opened NoteStore

  /** One hit. The score is the constant 1.0 of the in-memory index. */
  datatype Snippet = Snippet(noteId: string, excerpt: string, score: real, tagMatches: seq<string>)

  datatype MemoryIndex = MemoryIndex(notes: map<string, Note>)

  /** The width of the excerpt window the query asks for. */
  const ExcerptWidth: int := 80

  /** Every note is filed under its own ID. */
  predicate Valid(ix: MemoryIndex) {
    forall k :: k in ix.notes ==> ix.notes[k].id == k
  }

  /** `OpenOrCreate`: the path is ignored and the index starts empty. */
  function OpenOrCreate(path: string): (r: Result<MemoryIndex>)
    ensures r.Ok? && |r.value.notes| == 0 && Valid(r.value)
  {
    Ok(MemoryIndex(map[]))
  }

  lemma OpenOrCreateIgnoresPath(p1: string, p2: string)
    ensures OpenOrCreate(p1) == OpenOrCreate(p2)
  {
  }

  /** `IndexNote`: upsert by ID, never failing. */
  function IndexNote(ix: MemoryIndex, n: Note): (r: Result<MemoryIndex>)
    ensures r.Ok?
    ensures r.value.notes.Keys == ix.notes.Keys + {n.id}
    ensures n.id in r.value.notes && r.value.notes[n.id] == n
    ensures forall k :: k in ix.notes && k != n.id ==> r.value.notes[k] == ix.notes[k]
    ensures Valid(ix) ==> Valid(r.value)
  {
    Ok(MemoryIndex(ix.notes[n.id := n]))
  }

  lemma IndexNoteIdempotent(ix: MemoryIndex, n: Note)
    ensures IndexNote(IndexNote(ix, n).value, n) == IndexNote(ix, n)
  {
    assert IndexNote(IndexNote(ix, n).value, n).value.notes == IndexNote(ix, n).value.notes;
  }

  /** `Close` has nothing to release and reports no error. */
  function Close(ix: MemoryIndex): (r: Option<string>)
    ensures r.None?
  {
    None
  }

  /** The lower-cased tags of a note. */
  function LowerTags(a: seq<string>): (r: set<string>)
    ensures forall i :: 0 <= i < |a| ==> ToLower(a[i]) in r
    ensures forall t :: t in r ==> exists i :: 0 <= i < |a| && ToLower(a[i]) == t
  {
    set i | 0 <= i < |a| :: ToLower(a[i])
  }

  /** Some tag of `b` equals some tag of `a`, ignoring ASCII case. */
  predicate TagsMeet(a: seq<string>, b: seq<string>) {
    exists i, j :: 0 <= i < |a| && 0 <= j < |b| && ToLower(a[i]) == ToLower(b[j])
  }

  /** Scans `b` for a tag whose lower case is in `s`. */
  function AnyIn(s: set<string>, b: seq<string>): (r: bool)
    ensures r <==> exists j :: 0 <= j < |b| && ToLower(b[j]) in s
  {
    if b == [] then false
    else if ToLower(b[0]) in s then true
    else
      assert forall j :: 1 <= j < |b| ==> b[j] == b[1..][j - 1];
      AnyIn(s, b[1..])
  }

  /** `anyTagMatch`. */
  function AnyTagMatch(a: seq<string>, b: seq<string>): (r: bool)
    ensures r <==> TagsMeet(a, b)
  {
    if |a| == 0 || |b| == 0 then false
    else AnyIn(LowerTags(a), b)
  }

  /** The tags of `b`, in order and as written, whose lower case is in `s`. */
  function KeepIn(s: set<string>, b: seq<string>): (r: seq<string>)
    ensures |r| <= |b|
    ensures forall k :: 0 <= k < |r| ==> r[k] in b && ToLower(r[k]) in s
    ensures forall j :: 0 <= j < |b| && ToLower(b[j]) in s ==> b[j] in r
  {
    if b == [] then []
    else
      var rest := KeepIn(s, b[1..]);
      assert forall j :: 1 <= j < |b| ==> b[j] == b[1..][j - 1];
      if ToLower(b[0]) in s then [b[0]] + rest else rest
  }

  /** `intersect`: the requested tags (spelling of `b`) that the note carries. */
  function Intersect(a: seq<string>, b: seq<string>): (r: seq<string>)
    ensures |r| <= |b|
    ensures forall k :: 0 <= k < |r| ==> r[k] in b && exists i :: 0 <= i < |a| && ToLower(a[i]) == ToLower(r[k])
    ensures forall i, j :: 0 <= i < |a| && 0 <= j < |b| && ToLower(a[i]) == ToLower(b[j]) ==> b[j] in r
  {
    if |a| == 0 || |b| == 0 then [] else KeepIn(LowerTags(a), b)
  }

  /** Keeping distributes over concatenation. */
  lemma {:induction false} KeepInAppend(s: set<string>, b1: seq<string>, b2: seq<string>)
    ensures KeepIn(s, b1 + b2) == KeepIn(s, b1) + KeepIn(s, b2)
    decreases |b1|
  {
    if b1 == [] {
      assert b1 + b2 == b2;
    } else {
      assert (b1 + b2)[1..] == b1[1..] + b2;
      KeepInAppend(s, b1[1..], b2);
    }
  }

  /** The matched tags of a concatenation are those of each part, in order:
      together with `IntersectSingle`, the result is `b` filtered in its own
      order with duplicates kept. */
  lemma IntersectDistributes(a: seq<string>, b1: seq<string>, b2: seq<string>)
    ensures Intersect(a, b1 + b2) == Intersect(a, b1) + Intersect(a, b2)
  {
    if |a| == 0 {
    } else if b1 == [] {
      assert b1 + b2 == b2;
    } else if b2 == [] {
      assert b1 + b2 == b1;
    } else {
      KeepInAppend(LowerTags(a), b1, b2);
    }
  }

  /** One requested tag is kept, as written, exactly when the note carries it
      in some case. */
  lemma IntersectSingle(a: seq<string>, t: string)
    ensures Intersect(a, [t]) == if exists i :: 0 <= i < |a| && ToLower(a[i]) == ToLower(t) then [t] else []
  {
    assert [t][1..] == [];
  }

  /** The matched tags are empty exactly when no tag matches. */
  lemma IntersectEmptyIff(a: seq<string>, b: seq<string>)
    ensures Intersect(a, b) == [] <==> !AnyTagMatch(a, b)
  {
    if AnyTagMatch(a, b) {
      var i, j :| 0 <= i < |a| && 0 <= j < |b| && ToLower(a[i]) == ToLower(b[j]);
      assert |a| > 0 && |b| > 0 && ToLower(b[j]) in LowerTags(a);
      assert b[j] in Intersect(a, b);
    }
    if Intersect(a, b) != [] {
      var t := Intersect(a, b)[0];
      assert t in b;
      var j :| 0 <= j < |b| && b[j] == t;
      var i :| 0 <= i < |a| && ToLower(a[i]) == ToLower(t);
      assert TagsMeet(a, b);
    }
  }

  /** `content[:width]` when the content is longer than a positive width. */
  function Clip(content: string, width: int): (r: string)
    ensures |r| <= |content| && r == content[..|r|]
    ensures width > 0 ==> |r| <= width
  {
    if |content| > width && width > 0 then content[..width] else content
  }

  /** `excerpt`: the whole content or its head when there is no query or no
      hit, otherwise a window of `width` characters starting half a width
      before the first case-insensitive hit. */
  function Excerpt(content: string, q: string, width: int): (r: string)
    ensures exists a, b :: 0 <= a <= b <= |content| && r == content[a..b]
    ensures width > 0 ==> |r| <= width
    ensures width <= 0 ==> r == content
  {
    if q == "" || width <= 0 then
      var c := Clip(content, width);
      assert c == content[0..|c|];
      c
    else
      var idx := IndexOf(ToLower(content), ToLower(q));
      if idx < 0 then
        var c := Clip(content, width);
        assert c == content[0..|c|];
        c
      else
        var start := WindowStart(idx, width);
        content[start..WindowEnd(start, width, |content|)]
  }

  /** Half a width before the hit, but not before the beginning. */
  function WindowStart(idx: int, width: int): (r: int)
    requires 0 <= idx && width > 0
    ensures 0 <= r <= idx
  {
    if idx - width / 2 < 0 then 0 else idx - width / 2
  }

  /** One width after the start, but not past the end. */
  function WindowEnd(start: int, width: int, len: int): (r: int)
    requires 0 <= start <= len && width > 0
    ensures start <= r <= len && r - start <= width
  {
    if start + width > len then len else start + width
  }

  /** With no query, the excerpt is the head of the content. */
  lemma ExcerptWithoutQuery(content: string, width: int)
    requires width > 0
    ensures Excerpt(content, "", width) == content[..if |content| < width then |content| else width]
  {
  }

  lemma ToLowerSlice(s: string, a: int, b: int)
    requires 0 <= a <= b <= |s|
    ensures ToLower(s[a..b]) == ToLower(s)[a..b]
  {
    var t := s[a..b];
    var lo := ToLower(s);
    var l, r := ToLower(t), lo[a..b];
    forall i | 0 <= i < b - a ensures l[i] == r[i] {
      assert l[i] == Lower(t[i]) && t[i] == s[a + i];
      assert r[i] == lo[a + i] == Lower(s[a + i]);
    }
    assert |l| == |r|;
  }

  /** With a query, the window starts half a width before the first
      case-insensitive hit (or at 0) and runs one width (or to the end). */
  lemma ExcerptAtFirstHit(content: string, q: string, width: int, k: nat)
    requires q != "" && width > 0
    requires OccursAt(ToLower(content), ToLower(q), k)
    requires forall j :: 0 <= j < k ==> !OccursAt(ToLower(content), ToLower(q), j)
    ensures var start := if k < width / 2 then 0 else k - width / 2;
      var end := if start + width > |content| then |content| else start + width;
      Excerpt(content, q, width) == content[start..end]
  {
    IndexOfFirst(ToLower(content), ToLower(q), k);
  }

  /** A query that never occurs gives the head of the content. */
  lemma ExcerptWithoutHit(content: string, q: string, width: int)
    requires q != "" && width > 0
    requires forall j :: 0 <= j <= |content| ==> !OccursAt(ToLower(content), ToLower(q), j)
    ensures Excerpt(content, q, width) == content[..if |content| < width then |content| else width]
  {
    assert IndexOf(ToLower(content), ToLower(q)) == -1;
  }

  /** When the query occurs and fits in the half window after its start, the
      excerpt contains it, ignoring case. */
  lemma ExcerptContainsHit(content: string, q: string, width: int)
    requires q != "" && width > 0
    requires Contains(ToLower(content), ToLower(q))
    requires |q| <= width - width / 2
    ensures Contains(ToLower(Excerpt(content, q, width)), ToLower(q))
  {
    var lc := ToLower(content);
    var lq := ToLower(q);
    var idx := IndexOf(lc, lq);
    var start := WindowStart(idx, width);
    var end := WindowEnd(start, width, |content|);
    assert Excerpt(content, q, width) == content[start..end];
    ToLowerSlice(content, start, end);
    OccursInSlice(lc, lq, idx, start, end);
    ContainsAt(lc[start..end], lq, idx - start);
  }

  lemma OccursInSlice(s: string, sub: string, k: int, a: int, b: int)
    requires OccursAt(s, sub, k)
    requires 0 <= a <= k && k + |sub| <= b <= |s|
    ensures OccursAt(s[a..b], sub, k - a)
  {
    forall i | 0 <= i < |sub| ensures s[a..b][k - a + i] == sub[i] {
      assert s[k..k + |sub|][i] == s[k + i];
    }
    assert s[a..b][k - a..k - a + |sub|] == sub;
  }

  /** The query normalisation: lower-cased, then trimmed. */
  function NormalizeQuery(q: string): (r: string)
    ensures IsLowerCase(r)
    ensures r == [] <==> AllSpace(q)
  {
    var l := ToLower(q);
    ToLowerIsLower(q);
    assert forall i :: 0 <= i < |q| ==> (IsSpace(l[i]) <==> IsSpace(q[i]));
    TrimSpace(l)
  }

  /** A stored note is kept by a query with (already normalised) text `q` and
      tag filter `tags`. */
  predicate Matches(n: Note, q: string, tags: seq<string>) {
    && (q == "" || Contains(ToLower(n.content), q))
    && (|tags| == 0 || TagsMeet(n.tags, tags))
  }

  /** The two filters of the query loop, in the order the loop applies them:
      the content test, then the tag test when tags are given. */
  function Keeps(n: Note, q: string, tags: seq<string>): (b: bool)
    ensures b <==> Matches(n, q, tags)
  {
    if q != "" && !Contains(ToLower(n.content), q) then false
    else if |tags| > 0 && !AnyTagMatch(n.tags, tags) then false
    else true
  }

  function SnippetOf(n: Note, q: string, tags: seq<string>): Snippet {
    Snippet(n.id, Excerpt(n.content, q, ExcerptWidth), 1.0, Intersect(n.tags, tags))
  }

  /** The matching notes' snippets, in iteration order: the reference the
      query loop is checked against. */
  function Hits(notes: map<string, Note>, order: seq<string>, q: string, tags: seq<string>): (r: seq<Snippet>)
    requires forall i :: 0 <= i < |order| ==> order[i] in notes
    ensures |r| <= |order|
  {
    if order == [] then []
    else
      var init := order[..|order| - 1];
      var n := notes[order[|order| - 1]];
      Hits(notes, init, q, tags) + (if Matches(n, q, tags) then [SnippetOf(n, q, tags)] else [])
  }

  function Take<T>(s: seq<T>, topK: int): (r: seq<T>)
    ensures topK <= 0 ==> r == s
    ensures topK > 0 ==> |r| == (if |s| < topK then |s| else topK) && r == s[..|r|]
  {
    if topK > 0 && |s| > topK then s[..topK] else s
  }

  /** `Query`: the ranged loop with its early exit once `topK` hits are
      collected; it never fails. */
  method Query(ix: MemoryIndex, order: seq<string>, q: string, topK: int, tags: seq<string>)
    returns (r: Result<seq<Snippet>>)
    requires IsIterationOrder(order, ix.notes)
    ensures r.Ok?
    ensures r.value == Take(Hits(ix.notes, order, NormalizeQuery(q), tags), topK)
  {
    var ql := NormalizeQuery(q);
    var out: seq<Snippet> := [];
    var i := 0;
    while i < |order|
      invariant 0 <= i <= |order|
      invariant out == Hits(ix.notes, order[..i], ql, tags)
      invariant topK > 0 ==> |out| < topK
    {
      var n := ix.notes[order[i]];
      HitsStep(ix.notes, order, i, ql, tags);
      if !Keeps(n, ql, tags) {
        i := i + 1;
        continue;
      }
      out := out + [SnippetOf(n, ql, tags)];
      i := i + 1;
      if topK > 0 && |out| >= topK {
        break;
      }
    }
    QueryExit(ix.notes, order, i, ql, topK, tags);
    return Ok(out);
  }

  /** Where the query loop stops, its hits are the limited result. */
  lemma QueryExit(notes: map<string, Note>, order: seq<string>, i: nat, q: string, topK: int, tags: seq<string>)
    requires forall k :: 0 <= k < |order| ==> order[k] in notes
    requires i <= |order|
    requires topK > 0 ==> |Hits(notes, order[..i], q, tags)| <= topK
    requires i < |order| ==> topK > 0 && |Hits(notes, order[..i], q, tags)| == topK
    ensures Hits(notes, order[..i], q, tags) == Take(Hits(notes, order, q, tags), topK)
  {
    if i == |order| {
      assert order[..i] == order;
    } else {
      TakeAtLimit(notes, order, i, q, topK, tags);
    }
  }

  /** Once a prefix of the order yields `topK` hits, those are the query's result. */
  lemma TakeAtLimit(notes: map<string, Note>, order: seq<string>, i: nat, q: string, topK: int, tags: seq<string>)
    requires forall k :: 0 <= k < |order| ==> order[k] in notes
    requires i <= |order|
    requires topK > 0 && |Hits(notes, order[..i], q, tags)| == topK
    ensures Hits(notes, order[..i], q, tags) == Take(Hits(notes, order, q, tags), topK)
  {
    HitsPrefix(notes, order, i, q, tags);
  }

  lemma HitsStep(notes: map<string, Note>, order: seq<string>, i: nat, q: string, tags: seq<string>)
    requires forall k :: 0 <= k < |order| ==> order[k] in notes
    requires i < |order|
    ensures var n := notes[order[i]];
      Hits(notes, order[..i + 1], q, tags)
      == Hits(notes, order[..i], q, tags) + (if Matches(n, q, tags) then [SnippetOf(n, q, tags)] else [])
  {
    assert order[..i + 1][..i] == order[..i];
  }

  /** The hits of a prefix of the order are a prefix of all the hits. */
  lemma {:induction false} HitsPrefix(notes: map<string, Note>, order: seq<string>, i: nat, q: string, tags: seq<string>)
    requires forall k :: 0 <= k < |order| ==> order[k] in notes
    requires i <= |order|
    ensures var h := Hits(notes, order[..i], q, tags);
      |h| <= |Hits(notes, order, q, tags)| && h == Hits(notes, order, q, tags)[..|h|]
    decreases |order|
  {
    if i < |order| {
      var init := order[..|order| - 1];
      assert order[..i] == init[..i];
      HitsPrefix(notes, init, i, q, tags);
    } else {
      assert order[..i] == order;
    }
  }

  /** Each hit belongs to a note of the order that matches the query. */
  lemma {:induction false} HitsSound(notes: map<string, Note>, order: seq<string>, q: string, tags: seq<string>)
    requires forall k :: 0 <= k < |order| ==> order[k] in notes
    ensures forall s :: s in Hits(notes, order, q, tags) ==>
      exists k :: 0 <= k < |order| && s == SnippetOf(notes[order[k]], q, tags) && Matches(notes[order[k]], q, tags)
  {
    if order != [] {
      var init := order[..|order| - 1];
      HitsSound(notes, init, q, tags);
      forall s | s in Hits(notes, init, q, tags)
        ensures exists k :: 0 <= k < |order| && s == SnippetOf(notes[order[k]], q, tags) && Matches(notes[order[k]], q, tags)
      {
        var k :| 0 <= k < |init| && s == SnippetOf(notes[init[k]], q, tags) && Matches(notes[init[k]], q, tags);
        assert init[k] == order[k];
      }
    }
  }

  /** Every matching note of the order has its snippet among the hits. */
  lemma {:induction false} HitsComplete(notes: map<string, Note>, order: seq<string>, q: string, tags: seq<string>)
    requires forall k :: 0 <= k < |order| ==> order[k] in notes
    ensures forall k :: 0 <= k < |order| && Matches(notes[order[k]], q, tags) ==>
      SnippetOf(notes[order[k]], q, tags) in Hits(notes, order, q, tags)
  {
    if order != [] {
      var init := order[..|order| - 1];
      HitsComplete(notes, init, q, tags);
      forall k | 0 <= k < |init| ensures init[k] == order[k] { }
    }
  }

  /** Without a limit, the query returns exactly the matching notes: each
      result is the snippet of a stored note that matches, and every stored
      note that matches has its snippet in the result. */
  lemma QueryUnlimited(ix: MemoryIndex, order: seq<string>, q: string, tags: seq<string>)
    requires IsIterationOrder(order, ix.notes)
    ensures var r := Take(Hits(ix.notes, order, NormalizeQuery(q), tags), 0);
      && (forall s :: s in r ==>
            (exists k :: k in ix.notes && s == SnippetOf(ix.notes[k], NormalizeQuery(q), tags) && Matches(ix.notes[k], NormalizeQuery(q), tags)))
      && (forall k :: k in ix.notes && Matches(ix.notes[k], NormalizeQuery(q), tags) ==>
            SnippetOf(ix.notes[k], NormalizeQuery(q), tags) in r)
  {
    var ql := NormalizeQuery(q);
    HitsSound(ix.notes, order, ql, tags);
    HitsComplete(ix.notes, order, ql, tags);
    forall k | k in ix.notes && Matches(ix.notes[k], ql, tags)
      ensures SnippetOf(ix.notes[k], ql, tags) in Hits(ix.notes, order, ql, tags)
    {
      var j :| 0 <= j < |order| && order[j] == k;
    }
  }

  /** With a positive limit, the result is at most `topK` long and is the
      first part of the unlimited result. */
  lemma QueryLimited(ix: MemoryIndex, order: seq<string>, q: string, topK: int, tags: seq<string>)
    requires IsIterationOrder(order, ix.notes)
    requires topK > 0
    ensures var all := Hits(ix.notes, order, NormalizeQuery(q), tags);
      var r := Take(all, topK);
      |r| <= topK && r == all[..|r|] && (|all| <= topK ==> r == all) && (|all| > topK ==> |r| == topK)
  {
  }

  /** A note just indexed is found by any query whose normalised text its
      lower-cased content contains, when no tag filter and no limit apply. */
  lemma IndexedNoteIsFound(ix: MemoryIndex, n: Note, order: seq<string>, q: string)
    requires IsIterationOrder(order, IndexNote(ix, n).value.notes)
    requires NormalizeQuery(q) == "" || Contains(ToLower(n.content), NormalizeQuery(q))
    ensures exists s :: (s in Take(Hits(IndexNote(ix, n).value.notes, order, NormalizeQuery(q), []), 0)
      && s.noteId == n.id && s.score == 1.0)
  {
    var ix2 := IndexNote(ix, n).value;
    QueryUnlimited(ix2, order, q, []);
    assert Matches(ix2.notes[n.id], NormalizeQuery(q), []);
  }

  predicate DistinctIds(h: seq<Snippet>) {
    forall i, j :: 0 <= i < j < |h| ==> h[i].noteId != h[j].noteId
  }

  /** The hits carry distinct note IDs when the index is valid. */
  lemma {:induction false} HitsDistinct(notes: map<string, Note>, order: seq<string>, q: string, tags: seq<string>)
    requires forall k :: 0 <= k < |order| ==> order[k] in notes
    requires forall k :: k in notes ==> notes[k].id == k
    requires forall i, j :: 0 <= i < j < |order| ==> order[i] != order[j]
    ensures DistinctIds(Hits(notes, order, q, tags))
  {
    if order != [] {
      var init := order[..|order| - 1];
      var last := order[|order| - 1];
      HitsDistinct(notes, init, q, tags);
      HitsSound(notes, init, q, tags);
      var h0 := Hits(notes, init, q, tags);
      forall s | s in h0 ensures s.noteId != last {
        var k :| 0 <= k < |init| && s == SnippetOf(notes[init[k]], q, tags) && Matches(notes[init[k]], q, tags);
        assert init[k] == order[k];
      }
      var h := Hits(notes, order, q, tags);
      if Matches(notes[last], q, tags) {
        assert h == h0 + [SnippetOf(notes[last], q, tags)];
        forall i, j | 0 <= i < j < |h| ensures h[i].noteId != h[j].noteId {
          if j == |h0| {
            assert h[i] == h0[i] && h0[i] in h0;
            assert h[j].noteId == notes[last].id == last;
          } else {
            assert h[i] == h0[i] && h[j] == h0[j];
          }
        }
      } else {
        assert h == h0;
      }
    }
  }
}
