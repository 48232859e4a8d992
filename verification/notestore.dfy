/** The note record and the in-memory note store (storage/storage.go):
    upsert by ID, newest-first listing, `#tag` extraction and UUIDv4 IDs. */
module NoteStore {
  import opened Wrappers
  import opened Text
  import opened Hex

  /** A user note. Timestamps are instants in nanoseconds; only their order
      matters here. */
  datatype Note = Note(id: string, content: string, tags: seq<string>, createdAt: int, updatedAt: int)

  datatype InMemoryStorage = InMemoryStorage(items: map<string, Note>)

  /** `order` lists every key of `m` exactly once: how the model receives the
      unspecified order in which Go ranges over a map. */
  predicate IsIterationOrder<V>(order: seq<string>, m: map<string, V>) {
    && (forall i, j :: 0 <= i < j < |order| ==> order[i] != order[j])
    && (forall i :: 0 <= i < |order| ==> order[i] in m)
    && (forall k :: k in m ==> k in order)
  }

  function NewInMemory(): (s: InMemoryStorage)
    ensures |s.items| == 0
  {
    InMemoryStorage(map[])
  }

  /** `Save` replaces or inserts the note under its ID and never fails. */
  function Save(s: InMemoryStorage, n: Note): (r: Result<InMemoryStorage>)
    ensures r.Ok?
    ensures r.value.items.Keys == s.items.Keys + {n.id}
    ensures n.id in r.value.items && r.value.items[n.id] == n
    ensures forall k :: k in s.items && k != n.id ==> r.value.items[k] == s.items[k]
  {
    Ok(InMemoryStorage(s.items[n.id := n]))
  }

  lemma SaveIdempotent(s: InMemoryStorage, n: Note)
    ensures Save(Save(s, n).value, n) == Save(s, n)
  {
    assert Save(Save(s, n).value, n).value.items == Save(s, n).value.items;
  }

  /** Saves of notes with different IDs commute. */
  lemma SaveCommutes(s: InMemoryStorage, a: Note, b: Note)
    requires a.id != b.id
    ensures Save(Save(s, a).value, b) == Save(Save(s, b).value, a)
  {
    assert Save(Save(s, a).value, b).value.items == Save(Save(s, b).value, a).value.items;
  }

  predicate NewestFirst(ns: seq<Note>) {
    forall i, j :: 0 <= i < j < |ns| ==> ns[i].createdAt >= ns[j].createdAt
  }

  /** Inserts `n` before the first note that is strictly older. */
  function InsertByAge(n: Note, ns: seq<Note>): (r: seq<Note>)
    ensures multiset(r) == multiset(ns) + multiset{n}
    ensures |r| == |ns| + 1
    ensures forall k :: 0 <= k < |r| ==> r[k] == n || r[k] in ns
  {
    if ns == [] then [n]
    else if ns[0].createdAt < n.createdAt then [n] + ns
    else
      assert ns == [ns[0]] + ns[1..];
      [ns[0]] + InsertByAge(n, ns[1..])
  }

  lemma {:induction false} InsertByAgeSorted(n: Note, ns: seq<Note>)
    requires NewestFirst(ns)
    ensures NewestFirst(InsertByAge(n, ns))
  {
    if ns != [] && ns[0].createdAt >= n.createdAt {
      var rest := InsertByAge(n, ns[1..]);
      InsertByAgeSorted(n, ns[1..]);
      forall k | 0 <= k < |rest| ensures ns[0].createdAt >= rest[k].createdAt {
        if rest[k] != n {
          var j :| 0 <= j < |ns[1..]| && ns[1..][j] == rest[k];
          assert ns[j + 1] == rest[k];
        }
      }
    }
  }

  function SortNewestFirst(ns: seq<Note>): (r: seq<Note>)
    ensures NewestFirst(r)
    ensures multiset(r) == multiset(ns)
    ensures |r| == |ns|
  {
    if ns == [] then []
    else
      assert ns == [ns[0]] + ns[1..];
      InsertByAgeSorted(ns[0], SortNewestFirst(ns[1..]));
      InsertByAge(ns[0], SortNewestFirst(ns[1..]))
  }

  /** The stored notes in iteration order, before sorting. */
  function Values(items: map<string, Note>, order: seq<string>): (r: seq<Note>)
    requires forall i :: 0 <= i < |order| ==> order[i] in items
    ensures |r| == |order|
    ensures forall i :: 0 <= i < |order| ==> r[i] == items[order[i]]
  {
    seq(|order|, i requires 0 <= i < |order| => items[order[i]])
  }

  /** `List` collects the stored notes in map order and sorts them newest
      first. The source's sort is not stable, so equal timestamps may come out
      in any order; the model breaks ties by the given iteration order. */
  method List(s: InMemoryStorage, order: seq<string>) returns (r: Result<seq<Note>>)
    requires IsIterationOrder(order, s.items)
    ensures r.Ok?
    ensures |r.value| == |s.items|
    ensures NewestFirst(r.value)
    ensures multiset(r.value) == multiset(Values(s.items, order))
    ensures forall k :: k in s.items ==> s.items[k] in r.value
  {
    var out: seq<Note> := [];
    var i := 0;
    while i < |order|
      invariant 0 <= i <= |order|
      invariant out == Values(s.items, order)[..i]
    {
      out := out + [s.items[order[i]]];
      i := i + 1;
    }
    assert out == Values(s.items, order);
    var sorted := SortNewestFirst(out);
    DistinctCardinality(order, s.items);
    forall k | k in s.items ensures s.items[k] in sorted {
      var j :| 0 <= j < |order| && order[j] == k;
      assert out[j] == s.items[k];
      assert s.items[k] in multiset(out);
    }
    r := Ok(sorted);
  }

  /** An iteration order has as many entries as the map has keys. */
  lemma DistinctCardinality<V>(order: seq<string>, m: map<string, V>)
    requires IsIterationOrder(order, m)
    ensures |order| == |m|
  {
    var ks := set i | 0 <= i < |order| :: order[i];
    assert ks == m.Keys;
    DistinctSeqCard(order);
  }

  lemma {:induction false} DistinctSeqCard(order: seq<string>)
    requires forall i, j :: 0 <= i < j < |order| ==> order[i] != order[j]
    ensures |set i | 0 <= i < |order| :: order[i]| == |order|
  {
    if order != [] {
      var init := order[..|order| - 1];
      DistinctSeqCard(init);
      var s0 := set i | 0 <= i < |init| :: init[i];
      var s1 := set i | 0 <= i < |order| :: order[i];
      assert s1 == s0 + {order[|order| - 1]};
      assert order[|order| - 1] !in s0;
    }
  }

  /** A field of the content counts as a tag when it starts with `#` and has
      more than one character. */
  predicate IsTagField(f: string) {
    HasPrefix(f, "#") && |f| > 1
  }

  function TagsOfFields(fs: seq<string>): (r: seq<string>)
    ensures |r| <= |fs|
  {
    if fs == [] then []
    else if IsTagField(fs[0]) then [TrimPrefix(fs[0], "#")] + TagsOfFields(fs[1..])
    else TagsOfFields(fs[1..])
  }

  /** `ExtractTags`: every white-space separated field that starts with `#`
      and has length above one, with exactly one `#` removed, in order. */
  function ExtractTags(content: string): (r: seq<string>)
    ensures |r| <= |Fields(content)|
    ensures forall k :: 0 <= k < |r| ==> |r[k]| > 0 && NoSpace(r[k])
  {
    var fs := Fields(content);
    TagsOfFieldsShape(fs);
    TagsOfFields(fs)
  }

  lemma {:induction false} TagsOfFieldsShape(fs: seq<string>)
    requires forall k :: 0 <= k < |fs| ==> NoSpace(fs[k])
    ensures forall k :: 0 <= k < |TagsOfFields(fs)| ==> |TagsOfFields(fs)[k]| > 0 && NoSpace(TagsOfFields(fs)[k])
  {
    if fs != [] {
      TagsOfFieldsShape(fs[1..]);
      if IsTagField(fs[0]) {
        var t := TrimPrefix(fs[0], "#");
        assert t == fs[0][1..];
        assert forall i :: 0 <= i < |t| ==> t[i] == fs[0][i + 1];
      }
    }
  }

  /** Tags written as `#tag` words separated by single spaces come back
      unchanged, duplicates and order included. */
  lemma ExtractTagsRoundTrip(tags: seq<string>)
    requires forall k :: 0 <= k < |tags| ==> |tags[k]| > 0 && NoSpace(tags[k])
    ensures ExtractTags(Join(Hashed(tags), " ")) == tags
  {
    var hs := Hashed(tags);
    forall k | 0 <= k < |hs| ensures |hs[k]| > 0 && NoSpace(hs[k]) {
      assert hs[k] == "#" + tags[k];
      assert forall i :: 1 <= i < |hs[k]| ==> hs[k][i] == tags[k][i - 1];
    }
    FieldsOfJoin(hs);
    TagsOfHashed(tags);
  }

  function Hashed(tags: seq<string>): (r: seq<string>)
    ensures |r| == |tags|
    ensures forall k :: 0 <= k < |tags| ==> r[k] == "#" + tags[k]
  {
    seq(|tags|, k requires 0 <= k < |tags| => "#" + tags[k])
  }

  lemma {:induction false} TagsOfHashed(tags: seq<string>)
    requires forall k :: 0 <= k < |tags| ==> |tags[k]| > 0
    ensures TagsOfFields(Hashed(tags)) == tags
  {
    if tags != [] {
      var hs := Hashed(tags);
      assert hs[1..] == Hashed(tags[1..]);
      TagsOfHashed(tags[1..]);
      assert IsTagField(hs[0]);
      assert TrimPrefix(hs[0], "#") == tags[0];
    }
  }

  /** `strings.Fields` recovers space-joined words that hold no white space. */
  lemma {:induction false} FieldsOfJoin(ws: seq<string>)
    requires forall k :: 0 <= k < |ws| ==> |ws[k]| > 0 && NoSpace(ws[k])
    ensures Fields(Join(ws, " ")) == ws
  {
    if ws != [] {
      var w := ws[0];
      if |ws| == 1 {
        FieldsOfWord(w, "");
        assert w + "" == w;
      } else {
        var rest := Join(ws[1..], " ");
        assert Join(ws, " ") == w + (" " + rest);
        FieldsOfWord(w, " " + rest);
        assert (" " + rest)[1..] == rest;
        FieldsOfJoin(ws[1..]);
        assert ws == [w] + ws[1..];
      }
    }
  }

  /** A leading word followed by nothing or by white space is one field. */
  lemma FieldsOfWord(w: string, t: string)
    requires |w| > 0 && NoSpace(w)
    requires t == [] || IsSpace(t[0])
    ensures Fields(w + t) == [w] + Fields(t[|t|..]) + (if t == [] then [] else Fields(t[1..]))
  {
    var s := w + t;
    RunOfWord(w, t);
    assert s[..|w|] == w && s[|w|..] == t;
    if t != [] {
      assert Fields(t) == Fields(t[1..]);
    }
  }

  lemma {:induction false} RunOfWord(w: string, t: string)
    requires NoSpace(w)
    requires t == [] || IsSpace(t[0])
    ensures RunLength(w + t, c => IsSpace(c)) == |w|
    decreases |w|
  {
    if w == [] {
      assert w + t == t;
    } else {
      assert (w + t)[1..] == w[1..] + t;
      RunOfWord(w[1..], t);
    }
  }

  /** The random read that `NewID` performs, made an input. */
  datatype RandomRead = ReadOk(bytes: seq<Byte>) | ReadFailed(err: string)

  /** `b[6] = (b[6] & 0x0f) | 0x40`. */
  function VersionByte(b: Byte): (r: Byte)
    ensures r as int / 16 == 4
  {
    (b as int % 16 + 0x40) as Byte
  }

  /** `b[8] = (b[8] & 0x3f) | 0x80`. */
  function VariantByte(b: Byte): (r: Byte)
    ensures 8 <= r as int / 16 <= 11
  {
    (b as int % 64 + 0x80) as Byte
  }

  /** The sixteen random bytes with the version and variant bits set. */
  function StampV4(b: seq<Byte>): (r: seq<Byte>)
    requires |b| == 16
    ensures |r| == 16
    ensures r[6] as int / 16 == 4 && 8 <= r[8] as int / 16 <= 11
  {
    b[6 := VersionByte(b[6])][8 := VariantByte(b[8])]
  }

  /** `NewID`: the 8-4-4-4-12 layout of `%08x-%04x-%04x-%04x-%012x` applied
      to the big-endian values of the byte groups. */
  function NewID(read: RandomRead): (r: Result<string>)
    requires read.ReadOk? ==> |read.bytes| == 16
    ensures read.ReadFailed? <==> r.Err?
    ensures r.Ok? ==> IsUuidV4(r.value)
  {
    match read
    case ReadFailed(e) => Err(e)
    case ReadOk(raw) =>
      var b := StampV4(raw);
      var id := HexPad(BigEndian(b[0..4]), 8) + "-" + HexPad(BigEndian(b[4..6]), 4) + "-"
        + HexPad(BigEndian(b[6..8]), 4) + "-" + HexPad(BigEndian(b[8..10]), 4) + "-"
        + HexPad(BigEndian(b[10..16]), 12);
      NewIDIsLayout(b);
      Ok(id)
  }

  /** The version-4 UUID text layout. */
  predicate IsUuidV4(s: string) {
    && |s| == 36
    && (forall i :: 0 <= i < 36 ==> (s[i] == '-' <==> i in {8, 13, 18, 23}))
    && (forall i :: 0 <= i < 36 && i !in {8, 13, 18, 23} ==> IsHexDigit(s[i]))
    && s[14] == '4'
    && s[19] in {'8', '9', 'a', 'b'}
  }

  /** The five groups of hexadecimal digits joined by dashes. */
  function Dashed(h: string): (r: string)
    requires |h| == 32
  {
    h[0..8] + "-" + h[8..12] + "-" + h[12..16] + "-" + h[16..20] + "-" + h[20..32]
  }

  lemma DashedLayout(h: string)
    requires |h| == 32 && AllHex(h)
    requires h[12] == '4' && h[16] in {'8', '9', 'a', 'b'}
    ensures IsUuidV4(Dashed(h))
  {
    var r := Dashed(h);
    assert forall i :: 0 <= i < 8 ==> r[i] == h[i];
    assert forall i :: 9 <= i < 13 ==> r[i] == h[i - 1];
    assert forall i :: 14 <= i < 18 ==> r[i] == h[i - 2];
    assert forall i :: 19 <= i < 23 ==> r[i] == h[i - 3];
    assert forall i :: 24 <= i < 36 ==> r[i] == h[i - 4];
  }

  /** The high nibble of the stamped bytes gives the version and variant digits. */
  lemma StampDigits(b: seq<Byte>)
    requires |b| == 16 && b[6] as int / 16 == 4 && 8 <= b[8] as int / 16 <= 11
    ensures HexEncode(b)[12] == '4'
    ensures HexEncode(b)[16] in {'8', '9', 'a', 'b'}
  {
    var h := HexEncode(b);
    HexEncodeAt(b, 6);
    HexEncodeAt(b, 8);
    assert h[12] == h[12..14][0] && h[16] == h[16..18][0];
  }

  lemma NewIDIsLayout(b: seq<Byte>)
    requires |b| == 16 && b[6] as int / 16 == 4 && 8 <= b[8] as int / 16 <= 11
    ensures IsUuidV4(HexPad(BigEndian(b[0..4]), 8) + "-" + HexPad(BigEndian(b[4..6]), 4) + "-"
        + HexPad(BigEndian(b[6..8]), 4) + "-" + HexPad(BigEndian(b[8..10]), 4) + "-"
        + HexPad(BigEndian(b[10..16]), 12))
  {
    GroupsAreEncoding(b);
    StampDigits(b);
    DashedLayout(HexEncode(b));
  }

  /** Formatting each byte group as a number equals hex-encoding all bytes and
      cutting the digits at 8, 12, 16 and 20. */
  lemma GroupsAreEncoding(b: seq<Byte>)
    requires |b| == 16
    ensures HexPad(BigEndian(b[0..4]), 8) + "-" + HexPad(BigEndian(b[4..6]), 4) + "-"
        + HexPad(BigEndian(b[6..8]), 4) + "-" + HexPad(BigEndian(b[8..10]), 4) + "-"
        + HexPad(BigEndian(b[10..16]), 12) == Dashed(HexEncode(b))
  {
    var h := HexEncode(b);
    HexPadOfBigEndian(b[0..4]);
    HexPadOfBigEndian(b[4..6]);
    HexPadOfBigEndian(b[6..8]);
    HexPadOfBigEndian(b[8..10]);
    HexPadOfBigEndian(b[10..16]);
    EncodingSlice(b, 0, 4);
    EncodingSlice(b, 4, 6);
    EncodingSlice(b, 6, 8);
    EncodingSlice(b, 8, 10);
    EncodingSlice(b, 10, 16);
  }

  lemma EncodingSlice(b: seq<Byte>, lo: nat, hi: nat)
    requires lo <= hi <= |b|
    ensures HexEncode(b[lo..hi]) == HexEncode(b)[2 * lo..2 * hi]
  {
    var x, y, z := b[..lo], b[lo..hi], b[hi..];
    assert b == (x + y) + z;
    HexEncodeAppend(x + y, z);
    HexEncodeAppend(x, y);
    var h := HexEncode(b);
    assert h == HexEncode(x) + HexEncode(y) + HexEncode(z);
    assert h[2 * lo..2 * hi] == HexEncode(y);
  }

  lemma {:induction false} HexEncodeAppend(a: seq<Byte>, c: seq<Byte>)
    ensures HexEncode(a + c) == HexEncode(a) + HexEncode(c)
    decreases |c|
  {
    if c != [] {
      var c0 := c[..|c| - 1];
      assert (a + c)[..|a + c| - 1] == a + c0;
      HexEncodeAppend(a, c0);
    } else {
      assert a + c == a;
    }
  }
}
