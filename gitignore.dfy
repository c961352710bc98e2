/** codeconcat/file_utils.py, `load_gitignore_patterns`: collect the pattern lines of every
    `.gitignore` from the source directory up to the filesystem root, and compile them into one
    pathspec (matching itself is an oracle of the selection model). */
module Gitignore {
  import opened Wrappers
  import opened Strings
  import opened Paths

  /** What `current_path / ".gitignore"` holds: no regular file, a file whose opening or reading
      raises OSError, a file that is not valid UTF-8 (UnicodeDecodeError, which is not an
      OSError), or the file's lines as `str.splitlines()` gives them. */
  datatype IgnoreFile = Absent | ReadError | DecodeError | Lines(lines: seq<string>)

  /** The exception that escapes `load_gitignore_patterns`. */
  datatype IgnoreError = UndecodableIgnoreFile(dir: Parts)

  /** `line.strip() and not line.strip().startswith("#")` */
  predicate KeepLine(line: string) {
    Strip(line) != [] && !HasPrefix(Strip(line), "#")
  }

  /** A line is kept exactly when it has a character that is not white space and the first
      such character is not '#'. */
  lemma KeepLineIff(line: string)
    ensures KeepLine(line) <==> FirstNonSpace(line) < |line| && line[FirstNonSpace(line)] != '#'
  {
    StripHead(line);
    var t := Strip(line);
    if t != [] {
      assert HasPrefix(t, "#") <==> t[0] == '#' by {
        if t[0] == '#' { assert t[..1] == "#"; }
        if HasPrefix(t, "#") { assert t[..1][0] == t[0]; }
      }
    }
  }

  /** `[line for line in lines if line.strip() and not line.strip().startswith("#")]` */
  function ValidPatterns(lines: seq<string>): seq<string> {
    if lines == [] then []
    else
      var last := lines[|lines| - 1];
      ValidPatterns(lines[..|lines| - 1]) + (if KeepLine(last) then [last] else [])
  }

  /** The kept lines are exactly the lines that pass the test, unstripped. */
  lemma {:induction false} ValidPatternsMembers(lines: seq<string>, x: string)
    ensures x in ValidPatterns(lines) <==> x in lines && KeepLine(x)
  {
    if lines != [] {
      ValidPatternsMembers(lines[..|lines| - 1], x);
      assert lines == lines[..|lines| - 1] + [lines[|lines| - 1]];
    }
  }

  /** Filtering goes line by line, so file order is kept. */
  lemma {:induction false} ValidPatternsAppend(a: seq<string>, b: seq<string>)
    ensures ValidPatterns(a + b) == ValidPatterns(a) + ValidPatterns(b)
  {
    if b == [] {
      assert a + b == a;
    } else {
      assert (a + b)[..|a + b| - 1] == a + b[..|b| - 1];
      ValidPatternsAppend(a, b[..|b| - 1]);
    }
  }

  /** `path.parent`: the root is its own parent. */
  function Parent(p: Parts): Parts {
    if p == [] then [] else p[..|p| - 1]
  }

  /** Patterns one `.gitignore` contributes. */
  function PatternsAt(f: IgnoreFile): seq<string> {
    if f.Lines? then ValidPatterns(f.lines) else []
  }

  /** The patterns gathered from `p` and then each ancestor, stopping after the directory
      that is its own parent. */
  function Upward(p: Parts, fs: Parts -> IgnoreFile): Result<seq<string>, IgnoreError>
    decreases |p|
  {
    if fs(p).DecodeError? then Err(UndecodableIgnoreFile(p))
    else if Parent(p) == p then Ok(PatternsAt(fs(p)))
    else
      match Upward(Parent(p), fs)
      case Ok(rest) => Ok(PatternsAt(fs(p)) + rest)
      case Err(e) => Err(e)
  }

  function Prefixed(ps: seq<string>, r: Result<seq<string>, IgnoreError>): Result<seq<string>, IgnoreError> {
    match r
    case Ok(rest) => Ok(ps + rest)
    case Err(e) => Err(e)
  }

  lemma PrefixedAssoc(a: seq<string>, b: seq<string>, r: Result<seq<string>, IgnoreError>)
    ensures Prefixed(a, Prefixed(b, r)) == Prefixed(a + b, r)
    ensures Prefixed([], r) == r
  {
    if r.Ok? {
      assert [] + r.value == r.value;
      assert a + (b + r.value) == (a + b) + r.value;
    }
  }

  /** The result of `load_gitignore_patterns`: None when no pattern was collected or pathspec
      could not compile them, the patterns of the compiled spec otherwise. */
  function LoadedSpec(start: Parts, fs: Parts -> IgnoreFile, compiles: seq<string> -> bool)
    : Result<Option<seq<string>>, IgnoreError>
  {
    match Upward(start, fs)
    case Err(e) => Err(e)
    case Ok(patterns) =>
      if patterns != [] && compiles(patterns) then Ok(Some(patterns)) else Ok(None)
  }

  /** `load_gitignore_patterns(start_path)`, with the directory walk as the source's
      `while True` loop. */
  method LoadGitignorePatterns(start: Parts, fs: Parts -> IgnoreFile, compiles: seq<string> -> bool)
    returns (r: Result<Option<seq<string>>, IgnoreError>)
    ensures r == LoadedSpec(start, fs, compiles)
    ensures r.Ok? && r.value.Some? ==> r.value.value != [] && compiles(r.value.value)
  {
    var patterns: seq<string> := [];
    var current := start;
    PrefixedAssoc([], [], Upward(start, fs));
    while true
      invariant Upward(start, fs) == Prefixed(patterns, Upward(current, fs))
      decreases |current|
    {
      var gitignoreFile := fs(current);
      if gitignoreFile.DecodeError? {
        assert Upward(current, fs).Err?;
        return Err(UndecodableIgnoreFile(current));
      }
      ghost var before := patterns;
      if gitignoreFile.Lines? {
        var valid := ValidPatterns(gitignoreFile.lines);
        if valid != [] {
          patterns := patterns + valid;
        }
      }
      assert patterns == before + PatternsAt(gitignoreFile);
      var parent := Parent(current);
      if parent == current {
        assert Upward(current, fs) == Ok(PatternsAt(gitignoreFile));
        break;
      }
      assert Upward(current, fs) == Prefixed(PatternsAt(gitignoreFile), Upward(parent, fs));
      PrefixedAssoc(before, PatternsAt(gitignoreFile), Upward(parent, fs));
      assert Upward(start, fs) == Prefixed(patterns, Upward(parent, fs));
      current := parent;
    }
    assert Upward(start, fs) == Ok(patterns);
    if patterns != [] {
      if compiles(patterns) {
        return Ok(Some(patterns));
      }
      return Ok(None);
    }
    return Ok(None);
  }

  /** Only the start directory and its ancestors are read: two filesystems that agree on those
      directories give the same patterns, whatever lies below or beside them. */
  lemma {:induction false} ReadsOnlyAncestors(p: Parts, fs1: Parts -> IgnoreFile, fs2: Parts -> IgnoreFile)
    requires forall k | 0 <= k <= |p| :: fs1(p[..k]) == fs2(p[..k])
    ensures Upward(p, fs1) == Upward(p, fs2)
  {
    assert p[..|p|] == p;
    if Parent(p) != p {
      forall k | 0 <= k <= |Parent(p)| ensures fs1(Parent(p)[..k]) == fs2(Parent(p)[..k]) {
        assert Parent(p)[..k] == p[..k];
      }
      ReadsOnlyAncestors(Parent(p), fs1, fs2);
    }
  }

  /** A pattern is collected exactly when some `.gitignore` at the start directory or one of its
      ancestors holds it as a kept line. */
  lemma {:induction false} UpwardMembers(p: Parts, fs: Parts -> IgnoreFile, x: string)
    requires Upward(p, fs).Ok?
    ensures x in Upward(p, fs).value <==> exists k | 0 <= k <= |p| :: x in PatternsAt(fs(p[..k]))
  {
    assert p[..|p|] == p;
    var q := Parent(p);
    if q != p {
      UpwardMembers(q, fs, x);
      assert Upward(p, fs).value == PatternsAt(fs(p)) + Upward(q, fs).value;
      forall k | 0 <= k <= |q| ensures q[..k] == p[..k] {}
      if x in Upward(p, fs).value && x !in PatternsAt(fs(p)) {
        var k :| 0 <= k <= |q| && x in PatternsAt(fs(q[..k]));
        assert x in PatternsAt(fs(p[..k]));
      }
      if exists k | 0 <= k <= |p| :: x in PatternsAt(fs(p[..k])) {
        var k :| 0 <= k <= |p| && x in PatternsAt(fs(p[..k]));
        if k < |p| {
          assert x in PatternsAt(fs(q[..k]));
        }
      }
    }
  }

  /** Loading fails exactly when the `.gitignore` of the start directory or of an ancestor
      cannot be decoded. */
  lemma {:induction false} UpwardFailsIff(p: Parts, fs: Parts -> IgnoreFile)
    ensures Upward(p, fs).Err? <==> exists k | 0 <= k <= |p| :: fs(p[..k]).DecodeError?
  {
    assert p[..|p|] == p;
    if Parent(p) != p {
      UpwardFailsIff(Parent(p), fs);
      forall k | 0 <= k <= |Parent(p)| ensures Parent(p)[..k] == p[..k] {}
      if exists k | 0 <= k <= |p| :: fs(p[..k]).DecodeError? {
        var k :| 0 <= k <= |p| && fs(p[..k]).DecodeError?;
        if k < |p| {
          assert fs(Parent(p)[..k]).DecodeError?;
        }
      }
    }
  }
}
