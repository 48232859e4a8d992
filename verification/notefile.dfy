/** Saving a note as a Markdown file with YAML front matter
    (internal/storage/notes.go). The data directory lookup and the write
    are inputs: the directory (or the lookup's error) and the write's error,
    if any. Times come already formatted. */
module NoteFile {
  import opened Wrappers
  import opened Text

  /** A note as `SaveNote` sees it. `stamp` is the creation time in the
      `20060102150405` layout and `createdAt` the same time in RFC 3339. */
  datatype Note = Note(title: string, content: string, tags: seq<string>, stamp: string, createdAt: string)

  /** The file `SaveNote` writes: where, and what. */
  datatype File = File(path: string, body: string)

  /** The characters a title may not contain. */
  const IllegalChars: string := "/\\:*?\"<>|"

  /** `strings.ContainsAny`. */
  predicate ContainsAny(s: string, chars: string) {
    exists i :: 0 <= i < |s| && s[i] in chars
  }

  const DataDirFailed: string := "獲取資料目錄失敗: "
  const BadTitle: string := "標題包含非法字元，無法作為檔案名稱: "

  function WriteFailed(path: string, e: string): string {
    "將筆記寫入檔案 " + path + " 失敗: " + e
  }

  /** `<stamp>-<title>.md`; an empty title is allowed. */
  function FileName(n: Note): (r: string)
    ensures |r| == |n.stamp| + |n.title| + 4
    ensures r[..|n.stamp|] == n.stamp && r[|n.stamp|] == '-'
    ensures r[|n.stamp| + 1..|r| - 3] == n.title && r[|r| - 3..] == ".md"
  {
    n.stamp + "-" + n.title + ".md"
  }

  /** `filepath.Join` of a directory and a file name, without the cleaning
      of `.`, `..` and repeated separators. */
  function JoinPath(dir: string, name: string): (r: string)
    ensures dir == "" ==> r == name
    ensures dir != "" ==> r == dir + "/" + name
  {
    if dir == "" then name else dir + "/" + name
  }

  /** The line that opens and closes the front matter. */
  const Fence: string := "---"

  /** The front-matter lines, in order, without their line breaks. The tags
      line is there only when there are tags. */
  function HeaderLines(n: Note): (r: seq<string>) {
    [Fence, TitleLine(n.title), CreatedLine(n.createdAt)]
    + (if |n.tags| > 0 then [TagsLine(n.tags)] else [])
    + [Fence]
  }

  function TitleLine(t: string): string {
    "title: \"" + t + "\""
  }

  function CreatedLine(c: string): string {
    "created_at: \"" + c + "\""
  }

  const TagsOpen: string := "tags: ["

  function TagsLine(tags: seq<string>): string {
    TagsOpen + Join(tags, ", ") + "]"
  }

  /** The file's text, written piece by piece as `SaveNote` does. */
  function Body(n: Note): string {
    Fence + "\n"
    + TitleLine(n.title) + "\n"
    + CreatedLine(n.createdAt) + "\n"
    + (if |n.tags| > 0 then TagsLine(n.tags) + "\n" else "")
    + Fence + "\n\n"
    + n.content
  }

  /** `SaveNote`: the data directory is looked up first, then the title is
      checked, and only then is the file written. */
  function SaveNote(dataDir: Result<string>, n: Note, writeErr: Option<string>): (r: Result<File>)
    ensures dataDir.Err? ==> r == Err(DataDirFailed + dataDir.error)
    ensures dataDir.Ok? && ContainsAny(n.title, IllegalChars) ==> r == Err(BadTitle + n.title)
    ensures r.Ok? <==> dataDir.Ok? && !ContainsAny(n.title, IllegalChars) && writeErr.None?
    ensures r.Ok? ==> r.value.path == JoinPath(dataDir.value, FileName(n)) && r.value.body == Body(n)
    ensures dataDir.Ok? && !ContainsAny(n.title, IllegalChars) && writeErr.Some? ==>
      r == Err(WriteFailed(JoinPath(dataDir.value, FileName(n)), writeErr.value))
  {
    match dataDir
    case Err(e) => Err(DataDirFailed + e)
    case Ok(dir) =>
      if ContainsAny(n.title, IllegalChars) then Err(BadTitle + n.title)
      else
        var path := JoinPath(dir, FileName(n));
        match writeErr
        case Some(e) => Err(WriteFailed(path, e))
        case None => Ok(File(path, Body(n)))
  }

  /** The file is its front-matter lines joined by line breaks, a blank
      line, and the content untouched. */
  lemma BodyIsHeaderAndContent(n: Note)
    ensures Body(n) == Join(HeaderLines(n), "\n") + "\n\n" + n.content
  {
    var extra := if |n.tags| > 0 then [TagsLine(n.tags)] else [];
    JoinFrame(Fence, TitleLine(n.title), CreatedLine(n.createdAt), extra, "\n");
    assert "\n\n" == "\n" + "\n";
  }

  /** Joining a fenced run of lines, written out piece by piece. */
  lemma JoinFrame(d: string, t: string, c: string, extra: seq<string>, nl: string)
    requires |extra| <= 1
    ensures Join([d, t, c] + extra + [d], nl)
      == d + nl + t + nl + c + nl + (if extra == [] then [] else extra[0] + nl) + d
  {
    var tail := [c] + extra + [d];
    assert [d, t, c] + extra + [d] == [d] + ([t] + tail);
    JoinCons(d, [t] + tail, nl);
    JoinCons(t, tail, nl);
    JoinTail(c, extra, d, nl);
  }

  lemma JoinTail(c: string, extra: seq<string>, d: string, nl: string)
    requires |extra| <= 1
    ensures Join([c] + extra + [d], nl) == c + nl + (if extra == [] then [] else extra[0] + nl) + d
  {
    JoinCons(c, extra + [d], nl);
    if extra != [] {
      assert extra + [d] == [extra[0]] + [d];
      JoinCons(extra[0], [d], nl);
    }
  }

  /** No front-matter line holds a line break when the fields hold none,
      so the lines can be split back out of the file. */
  lemma HeaderLinesSplit(n: Note)
    requires '\n' !in n.title && '\n' !in n.createdAt
    requires forall k :: 0 <= k < |n.tags| ==> '\n' !in n.tags[k]
    ensures Split(Join(HeaderLines(n), "\n"), '\n') == HeaderLines(n)
  {
    var hs := HeaderLines(n);
    if |n.tags| > 0 {
      JoinFree(n.tags, ", ", '\n');
    }
    forall k | 0 <= k < |hs| ensures '\n' !in hs[k] {
    }
    SplitJoin(hs, '\n');
  }

  /** Joining parts free of a character with a separator free of it gives a
      string free of it. */
  lemma {:induction false} JoinFree(parts: seq<string>, sep: string, c: char)
    requires c !in sep
    requires forall k :: 0 <= k < |parts| ==> c !in parts[k]
    ensures c !in Join(parts, sep)
    decreases |parts|
  {
    if |parts| > 1 {
      JoinFree(parts[1..], sep, c);
    }
  }

  /** Reads a title back from its front-matter line. */
  function ReadTitle(line: string): (r: Option<string>)
    ensures r.Some? ==> TitleLine(r.value) == line
  {
    var open := "title: \"";
    if |line| > |open| && line[..|open|] == open && line[|line| - 1] == '"' then
      assert line == open + line[|open|..|line| - 1] + "\"";
      Some(line[|open|..|line| - 1])
    else None
  }

  /** The title is written between the quotes as it is, and reads back as
      it is, quotes and all. */
  lemma TitleRoundTrip(t: string)
    ensures ReadTitle(TitleLine(t)) == Some(t)
  {
    var line := TitleLine(t);
    assert line[..8] == "title: \"";
    assert line[8..|line| - 1] == t;
  }

  /** A front-matter line starts with `tags:` exactly when it is the tags
      line, and there is one exactly when the note has tags. */
  lemma TagsLineIffTags(n: Note)
    ensures (exists k :: 0 <= k < |HeaderLines(n)| && HasPrefix(HeaderLines(n)[k], "tags:")) <==> |n.tags| > 0
  {
    var hs := HeaderLines(n);
    assert !HasPrefix(hs[0], "tags:");
    assert !HasPrefix(hs[1], "tags:") by { assert hs[1][1] == 'i'; }
    assert !HasPrefix(hs[2], "tags:") by { assert hs[2][0] == 'c'; }
    assert !HasPrefix(hs[|hs| - 1], "tags:");
    if |n.tags| > 0 {
      assert hs[3] == TagsLine(n.tags);
      assert HasPrefix(hs[3], "tags:");
    } else {
      assert |hs| == 4;
    }
  }

  /** Reads the title back out of a file name, given the stamp's length. */
  function TitleOfFileName(name: string, stampLen: nat): (r: Option<string>)
    ensures r.Some? ==> |r.value| + stampLen + 4 == |name|
  {
    if |name| >= stampLen + 4 && name[stampLen] == '-' && name[|name| - 3..] == ".md" then
      Some(name[stampLen + 1..|name| - 3])
    else None
  }

  /** The title comes back out of the file name, whatever it is. */
  lemma FileNameRoundTrip(n: Note)
    ensures TitleOfFileName(FileName(n), |n.stamp|) == Some(n.title)
  {
  }

  /** Tags are written as `tags: [go, testing, example]`. */
  lemma ThreeTagsLine()
    ensures TagsLine(["go", "testing", "example"]) == "tags: [go, testing, example]"
  {
    JoinThree("go", "testing", "example", ", ");
  }

  lemma JoinThree(a: string, b: string, c: string, sep: string)
    ensures Join([a, b, c], sep) == a + sep + b + sep + c
  {
    JoinCons(a, [b, c], sep);
    JoinCons(b, [c], sep);
  }

  /** A title with a slash is refused, and nothing is written. */
  lemma SlashRefused(dir: string, n: Note, writeErr: Option<string>)
    requires n.title == "無效/標題"
    ensures SaveNote(Ok(dir), n, writeErr) == Err(BadTitle + "無效/標題")
  {
    assert n.title[2] == '/' && '/' in IllegalChars;
  }

  /** An empty title names the file `<stamp>-.md`. */
  lemma EmptyTitleAllowed(dir: string, n: Note)
    requires n.title == ""
    ensures SaveNote(Ok(dir), n, None) == Ok(File(JoinPath(dir, n.stamp + "-.md"), Body(n)))
    ensures TitleLine(n.title) == "title: \"\""
  {
    assert FileName(n) == n.stamp + "-.md";
  }
}
