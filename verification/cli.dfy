/** Helpers of the command-line front end (cmd/cmd.go): comma-separated tag
    parsing, the length-bounded context text handed to the model, and the
    UUIDv4 generator with its timestamp fallback. */
module Cli {
  import opened Text
  import opened Hex
  import opened NoteStore
  import opened Search

  /** A tag as `parseTags` emits it. */
  predicate CleanTag(t: string) {
    |t| > 0 && Trimmed(t) && ',' !in t
  }

  /** Every part is non-blank and trimmed. */
  predicate AllClean(ts: seq<string>) {
    forall k :: 0 <= k < |ts| ==> |ts[k]| > 0 && Trimmed(ts[k])
  }

  /** The trimmed parts, blank ones dropped, in order. */
  function CleanParts(parts: seq<string>): (r: seq<string>)
    ensures |r| <= |parts|
    ensures AllClean(r)
  {
    if parts == [] then []
    else
      var p := TrimSpace(parts[0]);
      var rest := CleanParts(parts[1..]);
      if p != "" then
        CleanCons(p, rest);
        [p] + rest
      else rest
  }

  lemma CleanCons(p: string, rest: seq<string>)
    requires |p| > 0 && Trimmed(p) && AllClean(rest)
    ensures AllClean([p] + rest)
  {
    var ts := [p] + rest;
    forall k | 0 <= k < |ts| ensures |ts[k]| > 0 && Trimmed(ts[k]) {
      if k > 0 {
        assert ts[k] == rest[k - 1];
      }
    }
  }

  /** Trimming brings in no character, so clean parts avoid what the parts avoid. */
  lemma {:induction false} CleanPartsAvoid(parts: seq<string>, c: char)
    requires forall j :: 0 <= j < |parts| ==> c !in parts[j]
    ensures forall k :: 0 <= k < |CleanParts(parts)| ==> c !in CleanParts(parts)[k]
  {
    if parts != [] {
      TrimSpaceAvoids(parts[0], c);
      CleanPartsAvoid(parts[1..], c);
    }
  }

  /** `parseTags`: split on commas, trim, drop blanks; blank input gives none. */
  function ParseTags(s: string): (r: seq<string>)
    ensures AllSpace(s) ==> r == []
    ensures forall k :: 0 <= k < |r| ==> CleanTag(r[k])
  {
    var t := TrimSpace(s);
    if t == "" then []
    else
      CleanPartsAvoid(Split(t, ','), ',');
      CleanParts(Split(t, ','))
  }

  lemma {:induction false} CleanPartsOfClean(tags: seq<string>)
    requires forall k :: 0 <= k < |tags| ==> CleanTag(tags[k])
    ensures CleanParts(tags) == tags
  {
    if tags != [] {
      TrimSpaceOfTrimmed(tags[0]);
      CleanPartsOfClean(tags[1..]);
    }
  }

  /** The joined text starts with the first part's first character and ends
      with the last part's last character. */
  lemma {:induction false} JoinEnds(parts: seq<string>, sep: string)
    requires parts != [] && forall k :: 0 <= k < |parts| ==> |parts[k]| > 0
    ensures var j := Join(parts, sep);
      |j| > 0 && j[0] == parts[0][0] && j[|j| - 1] == parts[|parts| - 1][|parts[|parts| - 1]| - 1]
    decreases |parts|
  {
    if |parts| > 1 {
      JoinEnds(parts[1..], sep);
    }
  }

  /** Clean tags joined by commas parse back to themselves. */
  lemma ParseTagsOfJoin(tags: seq<string>)
    requires forall k :: 0 <= k < |tags| ==> CleanTag(tags[k])
    ensures ParseTags(Join(tags, ",")) == tags
  {
    if tags != [] {
      var j := Join(tags, ",");
      JoinEnds(tags, ",");
      TrimSpaceOfTrimmed(j);
      SplitJoin(tags, ',');
      CleanPartsOfClean(tags);
    }
  }

  /** Parsing is stable: re-joining the parsed tags and parsing again gives
      the same tags. */
  lemma ParseTagsRoundTrip(s: string)
    ensures ParseTags(Join(ParseTags(s), ",")) == ParseTags(s)
  {
    ParseTagsOfJoin(ParseTags(s));
  }

  /** One entry of the context text: the ID line, then the excerpt line
      only for a non-empty excerpt, then the tags line only for matched tags. */
  function Entry(s: Snippet): (r: string)
    ensures HasPrefix(r, "- ID: " + s.noteId)
  {
    "- ID: " + s.noteId
      + (if s.excerpt != "" then "\n  Excerpt: " + s.excerpt else "")
      + (if |s.tagMatches| > 0 then "\n  Tags: " + Join(s.tagMatches, ",") else "")
  }

  function Entries(snips: seq<Snippet>): (r: seq<string>)
    ensures |r| == |snips|
    ensures forall k :: 0 <= k < |snips| ==> r[k] == Entry(snips[k])
  {
    seq(|snips|, k requires 0 <= k < |snips| => Entry(snips[k]))
  }

  /** The unbounded context: the entries separated by blank lines. */
  function FullContext(snips: seq<Snippet>): string {
    Join(Entries(snips), "\n\n")
  }

  /** `buildAskContext`: the builder loop that stops once the text passes
      `maxLen`, then the final cut to `maxLen`. */
  method BuildAskContext(snips: seq<Snippet>, maxLen: int) returns (out: string)
    ensures maxLen <= 0 ==> out == FullContext(snips)
    ensures maxLen > 0 ==> |out| == (if |FullContext(snips)| < maxLen then |FullContext(snips)| else maxLen)
    ensures maxLen > 0 ==> out == FullContext(snips)[..|out|]
  {
    var b := "";
    var i := 0;
    while i < |snips|
      invariant 0 <= i <= |snips|
      invariant b == Join(Entries(snips)[..i], "\n\n")
    {
      var s := snips[i];
      if i > 0 {
        b := b + "\n\n";
      }
      b := b + Entry(s);
      EntryStep(snips, i);
      i := i + 1;
      if maxLen > 0 && |b| > maxLen {
        break;
      }
    }
    JoinPrefix(Entries(snips), i, "\n\n");
    if i == |snips| {
      assert Entries(snips)[..i] == Entries(snips);
    }
    out := b;
    if maxLen > 0 && |out| > maxLen {
      out := out[..maxLen];
    }
  }

  /** The rendered prefix grows by a separator and one entry per step. */
  lemma EntryStep(snips: seq<Snippet>, i: nat)
    requires i < |snips|
    ensures Join(Entries(snips)[..i + 1], "\n\n")
      == (if i > 0 then Join(Entries(snips)[..i], "\n\n") + "\n\n" else "") + Entry(snips[i])
  {
    var es := Entries(snips);
    assert es[..i + 1] == es[..i] + [Entry(snips[i])];
    if i > 0 {
      JoinSnoc(es[..i], Entry(snips[i]), "\n\n");
    } else {
      assert es[..i + 1] == [Entry(snips[0])];
    }
  }

  /** The first entry leads the context, and the context is empty exactly
      when there are no snippets. */
  lemma FullContextShape(snips: seq<Snippet>)
    ensures FullContext(snips) == "" <==> snips == []
    ensures snips != [] ==> HasPrefix(FullContext(snips), "- ID: " + snips[0].noteId)
  {
    if snips != [] {
      var es := Entries(snips);
      var e := Entry(snips[0]);
      if |snips| > 1 {
        assert es == [e] + es[1..];
        JoinCons(e, es[1..], "\n\n");
        var j := FullContext(snips);
        assert j[..|e|] == e;
        assert j[..|"- ID: " + snips[0].noteId|] == e[..|"- ID: " + snips[0].noteId|];
      }
    }
  }

  /** Hexadecimal digits of a natural number without padding, as `%x` prints it. */
  function HexNat(n: nat): (r: string)
    ensures |r| > 0 && AllHex(r)
  {
    if n < 16 then [HexDigit(n)] else HexNat(n / 16) + [HexDigit(n % 16)]
  }

  /** `fmt.Sprintf("%x", ts)` of a signed integer. */
  function HexInt(n: int): (r: string)
    ensures n >= 0 ==> AllHex(r)
    ensures n < 0 ==> |r| > 1 && r[0] == '-' && AllHex(r[1..])
  {
    if n < 0 then "-" + HexNat(-n) else HexNat(n)
  }

  function Pow16(k: nat): (r: nat)
    ensures r > 0
  {
    if k == 0 then 1 else 16 * Pow16(k - 1)
  }

  lemma {:induction false} HexNatLength(n: nat, k: nat)
    requires k >= 1 && n < Pow16(k)
    ensures |HexNat(n)| <= k
  {
    if n >= 16 {
      HexNatLength(n / 16, k - 1);
    }
  }

  /** `genUUIDv4`: on a successful read, the 16 bytes with the version and
      variant bits set, hex-encoded and cut 8-4-4-4-12; when the read fails,
      the clock's nanoseconds in hexadecimal. */
  function GenUuidV4(read: RandomRead, nowNanos: int): (r: string)
    requires read.ReadOk? ==> |read.bytes| == 16
    ensures read.ReadOk? ==> IsUuidV4(r)
  {
    match read
    case ReadFailed(_) => HexInt(nowNanos)
    case ReadOk(raw) =>
      var b := StampV4(raw);
      StampDigits(b);
      DashedLayout(HexEncode(b));
      Dashed(HexEncode(b))
  }

  /** The command's generator and the store's `NewID` give the same ID for
      the same random bytes. */
  lemma GenUuidV4IsNewID(bytes: seq<Byte>, nowNanos: int)
    requires |bytes| == 16
    ensures GenUuidV4(ReadOk(bytes), nowNanos) == NewID(ReadOk(bytes)).value
  {
    GroupsAreEncoding(StampV4(bytes));
  }

  /** The fallback for a 64-bit clock reading is at most 17 characters, so it
      can never be mistaken for a UUID. */
  lemma FallbackIsNotUuid(nowNanos: int)
    requires -0x8000_0000_0000_0000 <= nowNanos < 0x8000_0000_0000_0000
    ensures |GenUuidV4(ReadFailed(""), nowNanos)| <= 17
    ensures !IsUuidV4(GenUuidV4(ReadFailed(""), nowNanos))
  {
    assert Pow16(16) == 0x1_0000_0000_0000_0000 by {
      assert Pow16(4) == 0x1_0000;
      assert Pow16(8) == 0x1_0000_0000;
      assert Pow16(12) == 0x1_0000_0000_0000;
    }
    if nowNanos < 0 {
      HexNatLength(-nowNanos, 16);
    } else {
      HexNatLength(nowNanos, 16);
    }
  }
}
