/** codeconcat/output.py `create_output`: one text stream holding, for every readable file of
    the tree in order, a record made of a header line, an opening delimiter, the content
    (newline-terminated) and a closing delimiter followed by a blank line. */
module Output {
  import opened Wrappers
  import opened Strings
  import opened Paths

  /** The line that opens and closes each file's content. */
  const Delimiter: string := "\"\"\"\"\"\"\n"

  /** What opening and reading one file gives: its text, or the error that skips it. */
  datatype ReadOutcome = Content(text: string) | UndecodableContent | ReadFailure | UnexpectedFailure

  /** A text stream written piece by piece: stdout, or a file opened for writing. */
  class Stream {
    const name: string
    var text: string
    var closed: bool

    constructor Open(name: string)
      ensures this.name == name && text == "" && !closed
    {
      this.name := name;
      text := "";
      closed := false;
    }

    method Write(s: string)
      requires !closed
      modifies this
      ensures text == old(text) + s && !closed
    {
      text := text + s;
    }

    method Close()
      modifies this
      ensures closed && text == old(text)
    {
      closed := true;
    }
  }

  /** The content as written: a newline is added unless it already ends with one. */
  function Terminated(c: string): string {
    if HasSuffix(c, "\n") then c else c + "\n"
  }

  /** The written content ends with a newline, starts with the whole content, and adds at
      most that newline: it is the content itself exactly when the content already ends with one. */
  lemma TerminatedFacts(c: string)
    ensures var t := Terminated(c);
      HasSuffix(t, "\n") && t[..|c|] == c && |c| <= |t| <= |c| + 1 &&
      (t == c <==> HasSuffix(c, "\n"))
  {
    var t := Terminated(c);
    if !HasSuffix(c, "\n") {
      assert (c + "\n")[..|c|] == c;
      assert (c + "\n")[|c|..] == "\n";
    }
  }

  /** The header path: the file relative to the source when it lies under it, the whole path
      otherwise, in POSIX form. */
  function Header(file: string, src: Parts): string {
    match RelativeTo(ParsePath(file), PurePath(true, src))
    case Some(rel) => AsPosix(rel)
    case None => AsPosix(ParsePath(file))
  }

  /** The record written for one readable file. */
  function Record(header: string, content: string): string {
    "File: " + header + "\n" + Delimiter + Terminated(content) + Delimiter + "\n\n"
  }

  /** Everything written for the files of `tree`, in order; unreadable files add nothing. */
  function Render(tree: seq<string>, src: Parts, read: string -> ReadOutcome): string {
    Concat(tree, PieceOf(src, read))
  }

  function PieceOf(src: Parts, read: string -> ReadOutcome): string -> string {
    file => Piece(file, src, read)
  }

  /** The pieces of `items`, concatenated in order. */
  function Concat(items: seq<string>, piece: string -> string): string {
    if items == [] then "" else Concat(items[..|items| - 1], piece) + piece(items[|items| - 1])
  }

  lemma {:induction false} ConcatAppend(a: seq<string>, b: seq<string>, piece: string -> string)
    ensures Concat(a + b, piece) == Concat(a, piece) + Concat(b, piece)
    decreases |b|
  {
    if b == [] {
      assert a + b == a;
    } else {
      var n := |b| - 1;
      assert (a + b)[..|a + b| - 1] == a + b[..n];
      assert (a + b)[|a + b| - 1] == b[n];
      ConcatAppend(a, b[..n], piece);
    }
  }

  /** What one file of the tree contributes. */
  function Piece(file: string, src: Parts, read: string -> ReadOutcome): string {
    match read(file)
    case Content(c) => Record(Header(file, src), c)
    case _ => ""
  }

  /** The first position of `ch` in `s`. */
  function IndexOf(s: string, ch: char): (r: Option<nat>)
    ensures r.None? <==> ch !in s
    ensures r.Some? ==> r.value < |s| && s[r.value] == ch && ch !in s[..r.value]
  {
    if s == [] then None
    else if s[0] == ch then Some(0)
    else match IndexOf(s[1..], ch)
      case None => None
      case Some(k) =>
        assert s[..k + 1] == [s[0]] + s[1..][..k];
        Some(k + 1)
  }

  /** Reads one record back: the header up to the first newline, then the text between the two
      delimiters. */
  function ParseRecord(r: string): Option<(string, string)> {
    if HasPrefix(r, "File: ") then SplitHeader(r[6..]) else None
  }

  function SplitHeader(rest: string): Option<(string, string)> {
    match IndexOf(rest, '\n')
    case None => None
    case Some(k) =>
      match ParseBody(rest[k + 1..])
      case None => None
      case Some(t) => Some((rest[..k], t))
  }

  function ParseBody(body: string): Option<string> {
    if |body| >= 2 * |Delimiter| + 2 && HasPrefix(body, Delimiter) && HasSuffix(body, Delimiter + "\n\n")
    then Some(body[|Delimiter|..|body| - |Delimiter| - 2])
    else None
  }

  /** The first newline after a newline-free header is the one that ends it. */
  lemma {:induction false} IndexAfterHeader(header: string, t: string)
    requires '\n' !in header
    ensures IndexOf(header + "\n" + t, '\n') == Some(|header|)
    decreases |header|
  {
    var s := header + "\n" + t;
    if header == [] {
      assert s[0] == '\n';
    } else {
      assert header[0] in header;
      assert s[1..] == header[1..] + "\n" + t;
      assert forall c | c in header[1..] :: c in header;
      IndexAfterHeader(header[1..], t);
    }
  }

  /** The part of a record after its header line. */
  function RecordBody(t: string): string {
    Delimiter + t + Delimiter + "\n\n"
  }

  lemma RecordShape(header: string, content: string)
    ensures Record(header, content) == "File: " + (header + "\n" + RecordBody(Terminated(content)))
  {
  }

  lemma BodyRoundTrip(t: string)
    ensures ParseBody(RecordBody(t)) == Some(t)
  {
    var body := RecordBody(t);
    assert body == Delimiter + (t + (Delimiter + "\n\n"));
    assert body[..|Delimiter|] == Delimiter;
    assert body[|body| - |Delimiter| - 2..] == Delimiter + "\n\n";
    assert body[|Delimiter|..|body| - |Delimiter| - 2] == t;
  }

  /** A record gives back its header and its written content. */
  lemma RecordRoundTrip(header: string, content: string)
    requires '\n' !in header
    ensures ParseRecord(Record(header, content)) == Some((header, Terminated(content)))
  {
    var t := Terminated(content);
    var body := RecordBody(t);
    var rest := header + "\n" + body;
    var r := Record(header, content);
    RecordShape(header, content);
    assert r[..6] == "File: " && r[6..] == rest;
    IndexAfterHeader(header, body);
    assert rest[..|header|] == header;
    assert rest[|header| + 1..] == body;
    BodyRoundTrip(t);
    assert SplitHeader(rest) == Some((header, t));
  }

  lemma ParsedBody(body: string, t: string)
    requires ParseBody(body) == Some(t)
    ensures body == RecordBody(t)
  {
    assert body == body[..|Delimiter|] + t + body[|body| - |Delimiter| - 2..];
  }

  /** Conversely, every string that parses, with newline-terminated content, is that record. */
  lemma ParsedIsRecord(r: string, header: string, text: string)
    requires ParseRecord(r) == Some((header, text)) && HasSuffix(text, "\n")
    ensures r == Record(header, text) && '\n' !in header
  {
    var rest := r[6..];
    var k := IndexOf(rest, '\n').value;
    var body := rest[k + 1..];
    ParsedBody(body, text);
    SplitLine(rest, k);
    SplitAt(r, 6);
    assert r[..6] == "File: ";
    RecordShape(header, text);
  }

  /** A string is its part before position `k`, the character at `k`, and the rest. */
  lemma SplitLine(s: string, k: nat)
    requires k < |s|
    ensures s == s[..k] + [s[k]] + s[k + 1..]
  {
  }

  lemma SplitAt(s: string, k: nat)
    requires k <= |s|
    ensures s == s[..k] + s[k..]
  {
  }

  /** Content lacking a final newline is written exactly as the same content with
      one: the output cannot tell them apart. */
  lemma RecordLosesMissingNewline(header: string, content: string)
    requires !HasSuffix(content, "\n")
    ensures Record(header, content) == Record(header, content + "\n")
  {
    assert HasSuffix(content + "\n", "\n");
  }

  /** Records follow the tree's order: the output for a concatenated tree is the
      concatenation of the outputs. */
  lemma RenderAppend(a: seq<string>, b: seq<string>, src: Parts, read: string -> ReadOutcome)
    ensures Render(a + b, src, read) == Render(a, src, read) + Render(b, src, read)
  {
    ConcatAppend(a, b, PieceOf(src, read));
  }

  /** A file that cannot be read contributes nothing, wherever it stands in the tree. */
  lemma SkipsUnreadable(a: seq<string>, file: string, b: seq<string>, src: Parts, read: string -> ReadOutcome)
    requires !read(file).Content?
    ensures Render(a + [file] + b, src, read) == Render(a + b, src, read)
  {
    RenderAppend(a + [file], b, src, read);
    RenderAppend(a, [file], src, read);
    RenderAppend(a, b, src, read);
    RenderOne(file, src, read);
  }

  /** A readable file contributes exactly its record, an unreadable one nothing. */
  lemma RenderOne(file: string, src: Parts, read: string -> ReadOutcome)
    ensures Render([file], src, read) ==
      if read(file).Content? then Record(Header(file, src), read(file).text) else ""
  {
    var piece := PieceOf(src, read);
    assert [file][..0] == [] && [file][0] == file;
    assert Concat([file], piece) == Concat([], piece) + piece(file);
    assert "" + piece(file) == piece(file);
    assert piece(file) == Piece(file, src, read);
  }

  lemma RenderStep(tree: seq<string>, i: nat, src: Parts, read: string -> ReadOutcome)
    requires i < |tree|
    ensures Render(tree[..i + 1], src, read) == Render(tree[..i], src, read) + Piece(tree[i], src, read)
  {
    assert tree[..i + 1] == tree[..i] + [tree[i]];
    RenderAppend(tree[..i], [tree[i]], src, read);
    RenderOne(tree[i], src, read);
  }

  /** For a path the walk produced under `src`, the header is the relative path `x`. */
  lemma HeaderOfWalkedPath(src: Parts, x: Parts)
    requires ValidParts(src + x) && x != []
    ensures Header(AbsStr(src + x), src) == JoinSlash(x)
  {
    ParseAbsStr(src + x);
    assert (src + x)[..|src|] == src;
    assert (src + x)[|src|..] == x;
  }

  /** A file outside the source is headed by its own path. */
  lemma HeaderOutsideSource(file: string, src: Parts)
    requires !(src <= ParsePath(file).parts) || !ParsePath(file).absolute
    ensures Header(file, src) == AsPosix(ParsePath(file))
  {
  }

  /** Writes one file's record, piece by piece. */
  method WriteRecord(stream: Stream, relativePath: string, content: string)
    requires !stream.closed
    modifies stream
    ensures stream.text == old(stream.text) + Record(relativePath, content) && !stream.closed
  {
    var header := "File: " + relativePath + "\n";
    stream.Write(header);
    stream.Write(Delimiter);
    assert stream.text == old(stream.text) + (header + Delimiter);
    stream.Write(content);
    if !HasSuffix(content, "\n") {
      stream.Write("\n");
      assert stream.text == old(stream.text) + (header + Delimiter + (content + "\n"));
    }
    assert stream.text == old(stream.text) + (header + Delimiter + Terminated(content));
    stream.Write(Delimiter);
    stream.Write("\n\n");
    assert stream.text == old(stream.text) + (header + Delimiter + Terminated(content) + Delimiter + "\n\n");
  }

  lemma AppendAssoc<T>(a: seq<T>, b: seq<T>, c: seq<T>)
    ensures (a + b) + c == a + (b + c)
  {
  }

  /** One iteration over the tree: reads the file, and writes its record when it could be read. */
  method WriteFile(stream: Stream, file: string, src: Parts, read: string -> ReadOutcome)
    requires !stream.closed
    modifies stream
    ensures stream.text == old(stream.text) + Piece(file, src, read) && !stream.closed
  {
    var outcome := read(file);
    if !outcome.Content? {
      assert old(stream.text) + "" == old(stream.text);
      return;
    }
    WriteRecord(stream, Header(file, src), outcome.text);
  }

  /** Writes the records of `tree` to an open stream, in order, skipping unreadable files. */
  method WriteRecords(stream: Stream, tree: seq<string>, src: Parts, read: string -> ReadOutcome)
    requires !stream.closed
    modifies stream
    ensures stream.text == old(stream.text) + Render(tree, src, read) && !stream.closed
  {
    for i := 0 to |tree|
      invariant stream.text == old(stream.text) + Render(tree[..i], src, read) && !stream.closed
    {
      RenderStep(tree, i, src, read);
      AppendAssoc(old(stream.text), Render(tree[..i], src, read), Piece(tree[i], src, read));
      WriteFile(stream, tree[i], src, read);
    }
    assert tree[..|tree|] == tree;
  }

  /** Whether a destination path was given: `None` and `""` are both false. */
  predicate Targeted(outputPath: Option<string>) {
    outputPath.Some? && outputPath.value != ""
  }

  /** `create_output`: writes to stdout when asked, else to a newly created file when a path is
      given and can be opened (an opening failure is logged and nothing is written); an empty
      tree writes nothing, though the file is still created. Only a file is closed afterwards. */
  method CreateOutput(outputPath: Option<string>, src: Parts, tree: seq<string>, toStdout: bool,
                      read: string -> ReadOutcome, canOpen: bool, stdout: Stream)
    returns (file: Stream?)
    requires !stdout.closed
    modifies stdout
    ensures toStdout ==> stdout.text == old(stdout.text) + Render(tree, src, read)
    ensures !toStdout ==> stdout.text == old(stdout.text)
    ensures !stdout.closed
    ensures file != null <==> !toStdout && Targeted(outputPath) && canOpen
    ensures file != null ==>
      fresh(file) && file.name == outputPath.value && file.text == Render(tree, src, read) && file.closed
  {
    file := null;
    if toStdout {
      if tree == [] {
        return;
      }
      WriteRecords(stdout, tree, src, read);
    } else if Targeted(outputPath) {
      if !canOpen {
        return;
      }
      file := new Stream.Open(outputPath.value);
      if tree != [] {
        WriteRecords(file, tree, src, read);
      }
      if !file.closed {
        file.Close();
      }
    } else {
      return;
    }
  }
}
