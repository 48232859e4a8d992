/** The subset of Go's `strings` and `unicode` packages the note tool relies
    on, over strings modelled as sequences of code points. Every function here
    follows the Go library's documented behaviour for the cases the tool uses. */
module Text {

  /** Go's `unicode.IsSpace`: the Unicode White_Space property. */
  predicate IsSpace(c: char) {
    ('\t' <= c <= '\r') || c == ' ' || c == '\U{0085}' || c == '\U{00A0}' || c == '\U{1680}'
    || ('\U{2000}' <= c <= '\U{200A}') || c == '\U{2028}' || c == '\U{2029}'
    || c == '\U{202F}' || c == '\U{205F}' || c == '\U{3000}'
  }

  /** Lower-case mapping of one character (ASCII letters; see README). */
  function Lower(c: char): (r: char)
    ensures 'A' <= c <= 'Z' ==> 'a' <= r <= 'z'
    ensures !('A' <= c <= 'Z') ==> r == c
  {
    if 'A' <= c <= 'Z' then (c as int + 32) as char else c
  }

  /** `strings.ToLower`: a length-preserving, per-character map. */
  function ToLower(s: string): (r: string)
    ensures |r| == |s|
    ensures forall i :: 0 <= i < |s| ==> r[i] == Lower(s[i])
  {
    if s == [] then [] else [Lower(s[0])] + ToLower(s[1..])
  }

  predicate IsLowerCase(s: string) {
    forall i :: 0 <= i < |s| ==> Lower(s[i]) == s[i]
  }

  lemma ToLowerIsLower(s: string)
    ensures IsLowerCase(ToLower(s))
    ensures ToLower(ToLower(s)) == ToLower(s)
  {
  }

  lemma ToLowerOfLower(s: string)
    requires IsLowerCase(s)
    ensures ToLower(s) == s
  {
  }

  lemma ToLowerAppend(a: string, b: string)
    ensures ToLower(a + b) == ToLower(a) + ToLower(b)
  {
    assert ToLower(a + b) == ToLower(a) + ToLower(b) by {
      var l, la, lb := ToLower(a + b), ToLower(a), ToLower(b);
      assert forall i :: 0 <= i < |a + b| ==> l[i] == (la + lb)[i];
    }
  }

  predicate NoSpace(s: string) {
    forall i :: 0 <= i < |s| ==> !IsSpace(s[i])
  }

  predicate AllSpace(s: string) {
    forall i :: 0 <= i < |s| ==> IsSpace(s[i])
  }

  /** `strings.TrimLeft(s, cut)`: drop leading characters of the cut set. */
  function TrimLeftIn(s: string, cut: set<char>): (r: string)
    ensures |r| <= |s| && r == s[|s| - |r|..]
    ensures r == [] || r[0] !in cut
    ensures forall i :: 0 <= i < |s| - |r| ==> s[i] in cut
  {
    if s == [] || s[0] !in cut then s else TrimLeftIn(s[1..], cut)
  }

  /** `strings.TrimLeftFunc(s, unicode.IsSpace)`. */
  function TrimLeftSpace(s: string): (r: string)
    ensures |r| <= |s| && r == s[|s| - |r|..]
    ensures r == [] || !IsSpace(r[0])
    ensures forall i :: 0 <= i < |s| - |r| ==> IsSpace(s[i])
  {
    if s == [] || !IsSpace(s[0]) then s else TrimLeftSpace(s[1..])
  }

  /** `strings.TrimRightFunc(s, unicode.IsSpace)`. */
  function TrimRightSpace(s: string): (r: string)
    ensures |r| <= |s| && r == s[..|r|]
    ensures r == [] || !IsSpace(r[|r| - 1])
    ensures forall i :: |r| <= i < |s| ==> IsSpace(s[i])
  {
    if s == [] || !IsSpace(s[|s| - 1]) then s else TrimRightSpace(s[..|s| - 1])
  }

  /** `strings.TrimSpace`. */
  function TrimSpace(s: string): (r: string)
    ensures |r| <= |s|
    ensures r == [] || (!IsSpace(r[0]) && !IsSpace(r[|r| - 1]))
    ensures r == [] <==> AllSpace(s)
  {
    var l := TrimLeftSpace(s);
    var r := TrimRightSpace(l);
    assert r == [] ==> AllSpace(s) by {
      assert r == [] ==> l == [];
    }
    r
  }

  /** A string whose ends are not white space is its own trim. */
  lemma TrimSpaceOfTrimmed(s: string)
    requires s == [] || (!IsSpace(s[0]) && !IsSpace(s[|s| - 1]))
    ensures TrimSpace(s) == s
  {
  }

  lemma TrimSpaceIdempotent(s: string)
    ensures TrimSpace(TrimSpace(s)) == TrimSpace(s)
  {
    TrimSpaceOfTrimmed(TrimSpace(s));
  }

  /** Neither end is white space: what `TrimSpace` returns. */
  predicate Trimmed(s: string) {
    s == [] || (!IsSpace(s[0]) && !IsSpace(s[|s| - 1]))
  }

  /** `TrimSpace` trims the left end, then the right end. */
  lemma TrimSpaceSteps(s: string)
    ensures TrimSpace(s) == TrimRightSpace(TrimLeftSpace(s))
  {
  }

  /** The trim holds only characters of its input. */
  lemma TrimSpaceWithin(s: string)
    ensures forall c :: c in TrimSpace(s) ==> c in s
  {
    var a, b := TrimSpaceDecompose(s);
  }

  /** A string is its trim with white space on either side. */
  lemma TrimSpaceDecompose(s: string) returns (a: string, b: string)
    ensures AllSpace(a) && AllSpace(b)
    ensures s == a + TrimSpace(s) + b
  {
    var l := TrimLeftSpace(s);
    var r := TrimRightSpace(l);
    a := LeftPadding(s);
    b := RightPadding(l);
    assert TrimSpace(s) == r;
    calc {
      s;
      a + l;
      a + (r + b);
      { AppendAssoc(a, r, b); }
      a + r + b;
    }
  }

  lemma AppendAssoc(a: string, b: string, c: string)
    ensures a + (b + c) == a + b + c
  {
  }

  /** What `TrimLeftSpace` removes. */
  lemma LeftPadding(s: string) returns (a: string)
    ensures AllSpace(a) && s == a + TrimLeftSpace(s)
  {
    a := SpacePrefix(s, TrimLeftSpace(s));
  }

  /** A suffix whose cut-off head is all white space. */
  lemma SpacePrefix(s: string, l: string) returns (a: string)
    requires |l| <= |s| && l == s[|s| - |l|..]
    requires forall i :: 0 <= i < |s| - |l| ==> IsSpace(s[i])
    ensures AllSpace(a) && s == a + l
  {
    a := s[..|s| - |l|];
    assert forall i :: 0 <= i < |a| ==> a[i] == s[i];
  }

  /** What `TrimRightSpace` removes. */
  lemma RightPadding(s: string) returns (b: string)
    ensures AllSpace(b) && s == TrimRightSpace(s) + b
  {
    var r := TrimRightSpace(s);
    b := s[|r|..];
    forall i | 0 <= i < |b| ensures IsSpace(b[i]) {
      assert b[i] == s[|r| + i];
    }
  }

  /** Trimming cannot introduce a character. */
  lemma TrimSpaceAvoids(s: string, c: char)
    requires c !in s
    ensures c !in TrimSpace(s)
  {
    TrimSpaceWithin(s);
  }

  /** Trimming ignores white space added at either end. */
  lemma {:induction false} TrimSpaceOfPadded(a: string, s: string, b: string)
    requires AllSpace(a) && AllSpace(b)
    ensures TrimSpace(a + s + b) == TrimSpace(s)
  {
    var x := a + s + b;
    assert x == a + (s + b);
    TrimLeftOfPadded(a, s + b);
    TrimLeftAppendRight(s, b);
    TrimSpaceSteps(x);
    TrimSpaceSteps(s);
  }

  lemma {:induction false} TrimLeftOfPadded(a: string, s: string)
    requires AllSpace(a)
    ensures TrimLeftSpace(a + s) == TrimLeftSpace(s)
    decreases |a|
  {
    if a != [] {
      assert (a + s)[0] == a[0] && IsSpace(a[0]);
      assert (a + s)[1..] == a[1..] + s;
      assert AllSpace(a[1..]);
      TrimLeftOfPadded(a[1..], s);
      assert TrimLeftSpace(a + s) == TrimLeftSpace((a + s)[1..]);
    } else {
      assert a + s == s;
    }
  }

  lemma {:induction false} TrimRightOfPadded(s: string, b: string)
    requires AllSpace(b)
    ensures TrimRightSpace(s + b) == TrimRightSpace(s)
    decreases |b|
  {
    if b != [] {
      assert (s + b)[..|s + b| - 1] == s + b[..|b| - 1];
      TrimRightOfPadded(s, b[..|b| - 1]);
    } else {
      assert s + b == s;
    }
  }

  /** Left-trimming `s + b` leaves `TrimLeftSpace(s) + b` unless `s` is all space. */
  lemma {:induction false} TrimLeftAppendRight(s: string, b: string)
    requires AllSpace(b)
    ensures TrimRightSpace(TrimLeftSpace(s + b)) == TrimRightSpace(TrimLeftSpace(s))
    decreases |s|
  {
    if s == [] {
      assert s + b == b;
      TrimLeftOfPadded(b, []);
      assert b + [] == b;
    } else if !IsSpace(s[0]) {
      TrimRightOfPadded(s, b);
    } else {
      assert (s + b)[1..] == s[1..] + b;
      TrimLeftAppendRight(s[1..], b);
    }
  }

  lemma TrimSpaceOfLeftPadded(a: string, s: string)
    requires AllSpace(a)
    ensures TrimSpace(a + s) == TrimSpace(s)
  {
    TrimLeftOfPadded(a, s);
  }

  lemma TrimSpaceOfRightPadded(s: string, b: string)
    requires AllSpace(b)
    ensures TrimSpace(s + b) == TrimSpace(s)
  {
    TrimLeftAppendRight(s, b);
  }

  predicate HasPrefix(s: string, p: string) {
    |p| <= |s| && s[..|p|] == p
  }

  /** `strings.TrimPrefix`. */
  function TrimPrefix(s: string, p: string): (r: string)
    ensures HasPrefix(s, p) ==> p + r == s
    ensures !HasPrefix(s, p) ==> r == s
  {
    if HasPrefix(s, p) then s[|p|..] else s
  }

  /** `sub` occurs in `s` starting at index `k`. */
  predicate OccursAt(s: string, sub: string, k: int) {
    0 <= k && k + |sub| <= |s| && s[k..k + |sub|] == sub
  }

  function IndexFrom(s: string, sub: string, i: nat): (r: int)
    requires i <= |s|
    ensures r == -1 || (i <= r && OccursAt(s, sub, r))
    ensures r == -1 ==> forall k :: i <= k <= |s| ==> !OccursAt(s, sub, k)
    ensures r != -1 ==> forall k :: i <= k < r ==> !OccursAt(s, sub, k)
    decreases |s| - i
  {
    if OccursAt(s, sub, i) then i
    else if i == |s| then -1
    else IndexFrom(s, sub, i + 1)
  }

  /** `strings.Index`: the first occurrence of `sub`, or -1. */
  function IndexOf(s: string, sub: string): (r: int)
    ensures r == -1 || OccursAt(s, sub, r)
    ensures r == -1 <==> forall k :: 0 <= k <= |s| ==> !OccursAt(s, sub, k)
    ensures r != -1 ==> forall k :: 0 <= k < r ==> !OccursAt(s, sub, k)
  {
    IndexFrom(s, sub, 0)
  }

  /** An occurrence with none before it is the one `IndexOf` finds. */
  lemma IndexOfFirst(s: string, sub: string, k: int)
    requires OccursAt(s, sub, k)
    requires forall j :: 0 <= j < k ==> !OccursAt(s, sub, j)
    ensures IndexOf(s, sub) == k
  {
  }

  /** `strings.Contains`. */
  predicate Contains(s: string, sub: string) {
    IndexOf(s, sub) >= 0
  }

  lemma ContainsAt(s: string, sub: string, k: int)
    requires OccursAt(s, sub, k)
    ensures Contains(s, sub)
  {
  }

  lemma OccursInMiddle(a: string, p: string, b: string)
    ensures OccursAt(a + p + b, p, |a|)
  {
    assert (a + p + b)[|a|..|a| + |p|] == p;
  }

  lemma ContainsEmpty(s: string)
    ensures Contains(s, "")
  {
    assert OccursAt(s, "", 0);
  }

  /** Length of the leading run of characters that are not separators. */
  function RunLength(s: string, isSep: char -> bool): (n: nat)
    ensures n <= |s|
    ensures forall i :: 0 <= i < n ==> !isSep(s[i])
    ensures n < |s| ==> isSep(s[n])
  {
    if s == [] || isSep(s[0]) then 0 else 1 + RunLength(s[1..], isSep)
  }

  /** A separator-free prefix followed by a separator (or nothing) is the run. */
  lemma RunOfPrefix(p: string, t: string, isSep: char -> bool)
    requires forall i :: 0 <= i < |p| ==> !isSep(p[i])
    requires t == [] || isSep(t[0])
    ensures RunLength(p + t, isSep) == |p|
  {
    var s := p + t;
    var n := RunLength(s, isSep);
    assert forall i :: 0 <= i < |p| ==> s[i] == p[i];
    assert |p| < |s| ==> s[|p|] == t[0];
  }

  /** `strings.FieldsFunc`: the maximal non-empty runs of non-separators. */
  function FieldsWhere(s: string, isSep: char -> bool): (r: seq<string>)
    ensures forall k :: 0 <= k < |r| ==> |r[k]| > 0
    ensures forall k, i :: 0 <= k < |r| && 0 <= i < |r[k]| ==> !isSep(r[k][i])
    ensures |r| <= |s|
    decreases |s|
  {
    if s == [] then []
    else if isSep(s[0]) then FieldsWhere(s[1..], isSep)
    else
      var n := RunLength(s, isSep);
      [s[..n]] + FieldsWhere(s[n..], isSep)
  }

  /** `strings.Fields`: fields separated by runs of white space. */
  function Fields(s: string): (r: seq<string>)
    ensures forall k :: 0 <= k < |r| ==> |r[k]| > 0 && NoSpace(r[k])
    ensures |r| <= |s|
  {
    FieldsWhere(s, c => IsSpace(c))
  }

  /** A run of separators in front changes no field. */
  lemma {:induction false} FieldsWhereSkip(p: string, t: string, isSep: char -> bool)
    requires forall i :: 0 <= i < |p| ==> isSep(p[i])
    ensures FieldsWhere(p + t, isSep) == FieldsWhere(t, isSep)
    decreases |p|
  {
    if p == [] {
      assert p + t == t;
    } else {
      assert (p + t)[0] == p[0];
      assert (p + t)[1..] == p[1..] + t;
      FieldsWhereSkip(p[1..], t, isSep);
    }
  }

  /** A separator-free word followed by a separator (or nothing) is one field. */
  lemma FieldsWhereWord(w: string, t: string, isSep: char -> bool)
    requires |w| > 0 && forall i :: 0 <= i < |w| ==> !isSep(w[i])
    requires t == [] || isSep(t[0])
    ensures FieldsWhere(w + t, isSep) == [w] + FieldsWhere(t, isSep)
  {
    var s := w + t;
    RunOfPrefix(w, t, isSep);
    assert s[0] == w[0];
    assert s[..|w|] == w && s[|w|..] == t;
  }

  /** Splitting into fields undoes joining with a separator run. */
  lemma {:induction false} FieldsWhereJoin(ws: seq<string>, sep: string, isSep: char -> bool)
    requires forall k :: 0 <= k < |ws| ==> |ws[k]| > 0 && forall i :: 0 <= i < |ws[k]| ==> !isSep(ws[k][i])
    requires |sep| > 0 && forall i :: 0 <= i < |sep| ==> isSep(sep[i])
    ensures FieldsWhere(Join(ws, sep), isSep) == ws
    decreases |ws|
  {
    if |ws| == 1 {
      FieldsWhereWord(ws[0], [], isSep);
      assert ws[0] + [] == ws[0];
    } else if |ws| > 1 {
      var rest := Join(ws[1..], sep);
      assert Join(ws, sep) == ws[0] + (sep + rest);
      FieldsWhereWord(ws[0], sep + rest, isSep);
      FieldsWhereSkip(sep, rest, isSep);
      FieldsWhereJoin(ws[1..], sep, isSep);
      assert ws == [ws[0]] + ws[1..];
    }
  }

  /** The index of the first `c` in `s`, or `|s|` when there is none. */
  function IndexOrEnd(s: string, c: char): (n: nat)
    ensures n <= |s|
    ensures c !in s[..n]
    ensures n < |s| ==> s[n] == c
  {
    if s == [] || s[0] == c then 0
    else
      var n := 1 + IndexOrEnd(s[1..], c);
      assert s[..n] == [s[0]] + s[1..][..n - 1];
      n
  }

  /** `strings.Split(s, string(c))` for a one-character separator. */
  function Split(s: string, c: char): (r: seq<string>)
    ensures |r| >= 1
    ensures forall k :: 0 <= k < |r| ==> c !in r[k]
    decreases |s|
  {
    var n := IndexOrEnd(s, c);
    if n == |s| then
      assert c !in s;
      [s]
    else [s[..n]] + Split(s[n + 1..], c)
  }

  /** `strings.Join`. */
  function Join(parts: seq<string>, sep: string): (r: string)
    ensures parts == [] ==> r == []
    ensures |parts| == 1 ==> r == parts[0]
  {
    if parts == [] then []
    else if |parts| == 1 then parts[0]
    else parts[0] + sep + Join(parts[1..], sep)
  }

  lemma JoinCons(p: string, rest: seq<string>, sep: string)
    requires rest != []
    ensures Join([p] + rest, sep) == p + sep + Join(rest, sep)
  {
    assert ([p] + rest)[1..] == rest;
  }

  /** Joining one more part appends the separator and that part. */
  lemma {:induction false} JoinSnoc(parts: seq<string>, p: string, sep: string)
    requires parts != []
    ensures Join(parts + [p], sep) == Join(parts, sep) + sep + p
    decreases |parts|
  {
    if |parts| == 1 {
      assert parts + [p] == [parts[0]] + [p];
    } else {
      assert (parts + [p])[1..] == parts[1..] + [p];
      JoinSnoc(parts[1..], p, sep);
    }
  }

  /** The join of the first parts is a prefix of the join of all parts. */
  lemma {:induction false} JoinPrefix(parts: seq<string>, i: nat, sep: string)
    requires i <= |parts|
    ensures |Join(parts[..i], sep)| <= |Join(parts, sep)|
    ensures Join(parts[..i], sep) == Join(parts, sep)[..|Join(parts[..i], sep)|]
    decreases |parts|
  {
    if i < |parts| {
      var init := parts[..|parts| - 1];
      assert parts[..i] == init[..i];
      JoinPrefix(init, i, sep);
      assert parts == init + [parts[|parts| - 1]];
      if init != [] {
        JoinSnoc(init, parts[|parts| - 1], sep);
      } else {
        assert parts[..i] == [];
      }
    } else {
      assert parts[..i] == parts;
    }
  }

  /** `xs` with `d` between each two consecutive elements. */
  function Intersperse(xs: seq<string>, d: string): (r: seq<string>)
    ensures xs == [] ==> r == []
    ensures xs != [] ==> |r| == 2 * |xs| - 1
    ensures forall j :: 0 <= j < |r| ==> r[j] == d || r[j] in xs
  {
    if |xs| <= 1 then xs
    else [xs[0], d] + Intersperse(xs[1..], d)
  }

  /** The elements at even positions: the inverse of `Intersperse`. */
  function EvenItems(ls: seq<string>): (r: seq<string>)
    ensures |r| == (|ls| + 1) / 2
  {
    if |ls| <= 2 then (if ls == [] then [] else [ls[0]])
    else [ls[0]] + EvenItems(ls[2..])
  }

  lemma {:induction false} EvenItemsIntersperse(xs: seq<string>, d: string)
    ensures EvenItems(Intersperse(xs, d)) == xs
    decreases |xs|
  {
    if |xs| > 1 {
      var r := Intersperse(xs, d);
      assert r[2..] == Intersperse(xs[1..], d);
      EvenItemsIntersperse(xs[1..], d);
      assert [xs[0]] + xs[1..] == xs;
    }
  }

  /** A separator framed by `c` on both sides joins like interspersing the
      separator's middle and joining with `c`. */
  lemma {:induction false} JoinFramed(xs: seq<string>, d: string, c: char)
    ensures Join(xs, [c] + d + [c]) == Join(Intersperse(xs, d), [c])
    decreases |xs|
  {
    if |xs| > 1 {
      JoinFramed(xs[1..], d, c);
      JoinFramedStep(xs[0], d, Intersperse(xs[1..], d), c);
      FramedAssoc(xs[0], d, c, Join(xs[1..], [c] + d + [c]));
    }
  }

  /** One step of `JoinFramed`: the head, the separator's middle, the rest. */
  lemma JoinFramedStep(x: string, d: string, rest: seq<string>, c: char)
    requires rest != []
    ensures Join([x, d] + rest, [c]) == x + [c] + (d + [c] + Join(rest, [c]))
  {
    assert [x, d] + rest == [x] + ([d] + rest);
    JoinCons(x, [d] + rest, [c]);
    JoinCons(d, rest, [c]);
  }

  lemma FramedAssoc(x: string, d: string, c: char, j: string)
    ensures x + ([c] + d + [c]) + j == x + [c] + (d + [c] + j)
  {
    AppendAssoc(x, [c], d);
    AppendAssoc(x, [c] + d, [c]);
    AppendAssoc(x + [c], d, [c]);
    AppendAssoc(x + [c], d + [c], j);
  }

  /** Splitting undoes joining when no part contains the separator. */
  lemma {:induction false} SplitJoin(parts: seq<string>, c: char)
    requires parts != []
    requires forall k :: 0 <= k < |parts| ==> c !in parts[k]
    ensures Split(Join(parts, [c]), c) == parts
    decreases |parts|
  {
    if |parts| == 1 {
      SplitOne(parts[0], c);
    } else {
      JoinCons(parts[0], parts[1..], [c]);
      SplitCons(parts[0], Join(parts[1..], [c]), c);
      SplitJoin(parts[1..], c);
      assert [parts[0]] + parts[1..] == parts;
    }
  }

  /** A string without the separator splits into itself. */
  lemma SplitOne(p: string, c: char)
    requires c !in p
    ensures Split(p, c) == [p]
  {
    RunOfFree(p, [], c);
    assert p + [] == p;
  }

  /** A separator-free first part comes off whole. */
  lemma SplitCons(p: string, rest: string, c: char)
    requires c !in p
    ensures Split(p + [c] + rest, c) == [p] + Split(rest, c)
  {
    var s := p + [c] + rest;
    assert s == p + ([c] + rest);
    RunOfFree(p, [c] + rest, c);
    assert s[..|p|] == p;
    assert s[|p| + 1..] == rest;
  }

  /** The separator-free prefix of `p + t` is `p` when `t` is empty or starts with `c`. */
  lemma {:induction false} RunOfFree(p: string, t: string, c: char)
    requires c !in p
    requires t == [] || t[0] == c
    ensures IndexOrEnd(p + t, c) == |p|
    decreases |p|
  {
    if p != [] {
      assert (p + t)[1..] == p[1..] + t;
      RunOfFree(p[1..], t, c);
    } else {
      assert p + t == t;
    }
  }

  /** Text put in front of a join lands in the first part. */
  lemma JoinFirst(ps: seq<string>, a: string, sep: string)
    requires ps != []
    ensures Join([a + ps[0]] + ps[1..], sep) == a + Join(ps, sep)
  {
    if |ps| > 1 {
      JoinCons(ps[0], ps[1..], sep);
      JoinCons(a + ps[0], ps[1..], sep);
      assert [ps[0]] + ps[1..] == ps;
    }
  }

  /** Text put after a join lands in the last part. */
  lemma JoinLast(ps: seq<string>, b: string, sep: string)
    requires ps != []
    ensures Join(ps[..|ps| - 1] + [ps[|ps| - 1] + b], sep) == Join(ps, sep) + b
  {
    var n := |ps|;
    if n > 1 {
      assert ps == ps[..n - 1] + [ps[n - 1]];
      JoinSnoc(ps[..n - 1], ps[n - 1], sep);
      JoinSnoc(ps[..n - 1], ps[n - 1] + b, sep);
    } else {
      assert ps[..n - 1] + [ps[n - 1] + b] == [ps[0] + b];
    }
  }

  /** Text without the separator in front of a string joins its first part. */
  lemma SplitPadLeft(a: string, s: string, c: char)
    requires c !in a
    ensures var ps := Split(s, c);
      Split(a + s, c) == [a + ps[0]] + ps[1..]
  {
    var ps := Split(s, c);
    var qs := [a + ps[0]] + ps[1..];
    assert c !in a + ps[0];
    forall k | 0 <= k < |qs| ensures c !in qs[k] {
      if k > 0 {
        assert qs[k] == ps[k];
      }
    }
    JoinSplit(s, c);
    JoinFirst(ps, a, [c]);
    SplitJoin(qs, c);
  }

  /** Text without the separator after a string joins its last part. */
  lemma SplitPadRight(s: string, b: string, c: char)
    requires c !in b
    ensures var ps := Split(s, c);
      Split(s + b, c) == ps[..|ps| - 1] + [ps[|ps| - 1] + b]
  {
    var ps := Split(s, c);
    var n := |ps|;
    var qs := ps[..n - 1] + [ps[n - 1] + b];
    assert c !in ps[n - 1] + b;
    forall k | 0 <= k < |qs| ensures c !in qs[k] {
      if k < n - 1 {
        assert qs[k] == ps[k];
      }
    }
    JoinSplit(s, c);
    JoinLast(ps, b, [c]);
    SplitJoin(qs, c);
  }

  /** Joining what Split produced restores the string. */
  lemma {:induction false} JoinSplit(s: string, c: char)
    ensures Join(Split(s, c), [c]) == s
    decreases |s|
  {
    var n := IndexOrEnd(s, c);
    if n < |s| {
      JoinSplit(s[n + 1..], c);
      JoinCons(s[..n], Split(s[n + 1..], c), [c]);
      assert s == s[..n] + [c] + s[n + 1..];
    }
  }

  /** `strings.ReplaceAll` for a non-empty pattern: a left-to-right scan that
      replaces non-overlapping occurrences. */
  function ReplaceAll(s: string, pat: string, rep: string): (r: string)
    requires |pat| > 0
    ensures pat[0] !in s ==> r == s
    ensures rep == pat ==> r == s
    decreases |s|
  {
    if |s| < |pat| then s
    else if s[..|pat|] == pat then
      assert s == pat + s[|pat|..];
      rep + ReplaceAll(s[|pat|..], pat, rep)
    else
      assert s == [s[0]] + s[1..];
      [s[0]] + ReplaceAll(s[1..], pat, rep)
  }

  /** An occurrence at the front is replaced and the scan goes on after it. */
  lemma ReplaceAllHead(pat: string, t: string, rep: string)
    requires |pat| > 0
    ensures ReplaceAll(pat + t, pat, rep) == rep + ReplaceAll(t, pat, rep)
  {
    assert (pat + t)[..|pat|] == pat;
    assert (pat + t)[|pat|..] == t;
  }

  /** Replacing a pattern that does not occur changes nothing. */
  lemma {:induction false} ReplaceAllAbsent(s: string, pat: string, rep: string)
    requires |pat| > 0
    requires !Contains(s, pat)
    ensures ReplaceAll(s, pat, rep) == s
    decreases |s|
  {
    if |s| >= |pat| {
      assert !OccursAt(s, pat, 0);
      assert s[..|pat|] != pat;
      forall k | 0 <= k <= |s[1..]| ensures !OccursAt(s[1..], pat, k) {
        if OccursAt(s[1..], pat, k) {
          assert s[1..][k..k + |pat|] == s[k + 1..k + 1 + |pat|];
          assert OccursAt(s, pat, k + 1);
        }
      }
      ReplaceAllAbsent(s[1..], pat, rep);
      assert s == [s[0]] + s[1..];
    }
  }

  /** No occurrence can start in text that lacks the pattern's first character. */
  lemma {:induction false} ReplaceAllPlain(a: string, b: string, pat: string, rep: string)
    requires |pat| > 0 && pat[0] !in a
    ensures ReplaceAll(a + b, pat, rep) == a + ReplaceAll(b, pat, rep)
    decreases |a|
  {
    if a == [] {
      assert a + b == b;
    } else {
      var s := a + b;
      assert s[0] == a[0];
      assert s[1..] == a[1..] + b;
      ReplaceAllPlain(a[1..], b, pat, rep);
      if |s| >= |pat| {
        assert s[..|pat|][0] == a[0];
      }
    }
  }

  /** A single occurrence after pattern-free text is replaced, and the scan
      goes on after it. */
  lemma ReplaceAllFirst(a: string, pat: string, t: string, rep: string)
    requires |pat| > 0 && pat[0] !in a
    ensures ReplaceAll(a + pat + t, pat, rep) == a + rep + ReplaceAll(t, pat, rep)
  {
    ReplaceAllHead(pat, t, rep);
    ReplaceAllPlain(a, pat + t, pat, rep);
    AppendAssoc(a, pat, t);
    AppendAssoc(a, rep, ReplaceAll(t, pat, rep));
  }

  /** One occurrence between pattern-free texts is replaced, before a tail
      the replacement leaves alone. */
  lemma ReplaceAllOnce(a: string, pat: string, b: string, t: string, rep: string)
    requires |pat| > 0 && pat[0] !in a && pat[0] !in b
    requires ReplaceAll(t, pat, rep) == t
    ensures ReplaceAll(a + pat + (b + t), pat, rep) == a + rep + (b + t)
  {
    ReplaceAllFirst(a, pat, b + t, rep);
    ReplaceAllPlain(b, t, pat, rep);
  }

  /** The pattern itself is replaced whole. */
  lemma ReplaceAllSelf(pat: string, rep: string)
    requires |pat| > 0
    ensures ReplaceAll(pat, pat, rep) == rep
  {
    assert pat[..|pat|] == pat;
    assert pat[|pat|..] == [];
    assert rep + [] == rep;
  }

  /** After replacement the pattern survives only if the replacement text or
      a junction re-creates it; with a pattern-free result nothing is left. */
  lemma {:induction false} ReplaceAllByEmptyShrinks(s: string, pat: string)
    requires |pat| > 0
    ensures |ReplaceAll(s, pat, "")| <= |s|
    ensures Contains(s, pat) ==> |ReplaceAll(s, pat, "")| < |s|
    decreases |s|
  {
    if |s| >= |pat| {
      if s[..|pat|] == pat {
        ReplaceAllByEmptyShrinks(s[|pat|..], pat);
      } else {
        ReplaceAllByEmptyShrinks(s[1..], pat);
        if Contains(s, pat) {
          ContainsPastHead(s, pat);
        }
      }
    } else {
      ShortLacks(s, pat);
    }
  }

  /** An occurrence not at the head is an occurrence in the tail. */
  lemma ContainsPastHead(s: string, pat: string)
    requires |pat| > 0 && |s| >= |pat| && s[..|pat|] != pat && Contains(s, pat)
    ensures Contains(s[1..], pat)
  {
    var k := IndexOf(s, pat);
    assert OccursAt(s, pat, k);
    assert k != 0 by { assert !OccursAt(s, pat, 0); }
    var t := s[1..];
    assert t[k - 1..k - 1 + |pat|] == s[k..k + |pat|];
    ContainsAt(t, pat, k - 1);
  }

  /** A string shorter than the pattern does not contain it. */
  lemma ShortLacks(s: string, pat: string)
    requires |s| < |pat|
    ensures !Contains(s, pat)
  {
  }

  /** Go string ordering: byte-wise comparison of UTF-8, which is the same as
      code-point-wise lexicographic order. */
  predicate StrLess(a: string, b: string)
    decreases |a|
  {
    if a == [] then b != []
    else if b == [] then false
    else if a[0] != b[0] then a[0] < b[0]
    else StrLess(a[1..], b[1..])
  }

  lemma {:induction false} StrLessIrreflexive(a: string)
    ensures !StrLess(a, a)
    decreases |a|
  {
    if a != [] { StrLessIrreflexive(a[1..]); }
  }

  lemma {:induction false} StrLessTransitive(a: string, b: string, c: string)
    requires StrLess(a, b) && StrLess(b, c)
    ensures StrLess(a, c)
    decreases |a|
  {
    if a != [] && b != [] && c != [] && a[0] == b[0] && b[0] == c[0] {
      StrLessTransitive(a[1..], b[1..], c[1..]);
    }
  }

  lemma {:induction false} StrLessTotal(a: string, b: string)
    ensures a == b || StrLess(a, b) || StrLess(b, a)
    decreases |a|
  {
    if a != [] && b != [] && a[0] == b[0] {
      StrLessTotal(a[1..], b[1..]);
      if a[1..] == b[1..] {
        assert a == [a[0]] + a[1..] && b == [b[0]] + b[1..];
      }
    }
  }

  lemma StrLessAsymmetric(a: string, b: string)
    requires StrLess(a, b)
    ensures !StrLess(b, a)
  {
    if StrLess(b, a) {
      StrLessTransitive(a, b, a);
      StrLessIrreflexive(a);
    }
  }

  /** Go's `%d` for an integer. */
  function Decimal(n: int): (r: string)
    ensures |r| > 0
    ensures n >= 0 ==> forall i :: 0 <= i < |r| ==> '0' <= r[i] <= '9'
    decreases if n < 0 then 1 - n else n
  {
    if n < 0 then "-" + Decimal(-n)
    else if n < 10 then [('0' as int + n) as char]
    else Decimal(n / 10) + [('0' as int + n % 10) as char]
  }

  /** The digits read back as a number: `Decimal` is injective on naturals. */
  function DigitsValue(s: string): int
  {
    if s == [] then 0 else DigitsValue(s[..|s| - 1]) * 10 + (s[|s| - 1] as int - '0' as int)
  }

  lemma {:induction false} DecimalRoundTrip(n: nat)
    ensures DigitsValue(Decimal(n)) == n
    decreases n
  {
    if n >= 10 {
      DecimalRoundTrip(n / 10);
      var d := Decimal(n / 10) + [('0' as int + n % 10) as char];
      assert d[..|d| - 1] == Decimal(n / 10);
    }
  }
}
