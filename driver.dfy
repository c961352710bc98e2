/** codeconcat/main.py `main`, lines 77-183: settle the three settings (command line, then
    the merged configuration, then the defaults), check the output target, exclude the
    destination file from its own source, hand the coerced lists to the walker and write the
    output when something was found. */
module Driver {
  import opened Wrappers
  import opened Strings
  import opened Paths
  import opened PyValues
  import opened Gitignore
  import opened FileSelection
  import opened SelectionFacts
  import opened Walker
  import opened Output

  /** The parsed command line: the two positionals, the repeatable `--exclude` and
      `--whitelist` (None when never given) and the two switches. */
  datatype Args = Args(
    sourcePath: string,
    destinationFile: Option<string>,
    exclude: Option<seq<string>>,
    whitelist: Option<seq<string>>,
    toStdout: bool,
    noGitignore: bool)

  /** The three `DEFAULT_CONFIG` entries `main` falls back on. */
  datatype Defaults = Defaults(useGitignore: PyValue, excludePatterns: PyValue, whitelistPatterns: PyValue)

  /** Why `main` exits with status 1. */
  datatype Failure = BadTarget | CollectionFailed(error: WalkError)

  /** `config.get(key, default)` */
  function Lookup(config: seq<(string, PyValue)>, key: string, default: PyValue): PyValue {
    match Get(config, key)
    case Some(v) => v
    case None => default
  }

  function PyStrs(ss: seq<string>): (r: seq<PyValue>)
    ensures |r| == |ss| && forall i | 0 <= i < |ss| :: r[i] == PyStr(ss[i])
  {
    seq(|ss|, i requires 0 <= i < |ss| => PyStr(ss[i]))
  }

  /** `use_gitignore`: False under `--no-gitignore`, else the configured value or the default. */
  function ResolveUseGitignore(args: Args, config: seq<(string, PyValue)>, defaults: Defaults): PyValue {
    if args.noGitignore then PyBool(!args.noGitignore)
    else Lookup(config, "use_gitignore", defaults.useGitignore)
  }

  /** A pattern list: the command-line list whenever the flag was given, else the configured
      value, else the default. */
  function ResolvePatterns(flag: Option<seq<string>>, config: seq<(string, PyValue)>, key: string, default: PyValue): PyValue {
    if flag.Some? then PyList(PyStrs(flag.value)) else Lookup(config, key, default)
  }

  /** A destination was named: the positional is present and not empty. */
  predicate HasDestination(args: Args) {
    args.destinationFile.Some? && args.destinationFile.value != ""
  }

  /** The characters `re.escape` prefixes with a backslash. */
  const SpecialChars: set<char> := {
    '(', ')', '[', ']', '{', '}', '?', '*', '+', '-', '|', '^', '$', '\\', '.', '&', '~', '#',
    ' ', '\t', '\n', '\r', '\U{000B}', '\U{000C}'
  }

  /** `re.escape(s)` */
  function Escape(s: string): string {
    if s == [] then [] else (if s[0] in SpecialChars then ['\\', s[0]] else [s[0]]) + Escape(s[1..])
  }

  /** Drops the backslash in front of each escaped character. */
  function Unescape(s: string): string {
    if s == [] then []
    else if s[0] == '\\' && |s| >= 2 then [s[1]] + Unescape(s[2..])
    else [s[0]] + Unescape(s[1..])
  }

  /** Escaping loses nothing. */
  lemma {:induction false} UnescapeEscape(s: string)
    ensures Unescape(Escape(s)) == s
  {
    if s != [] {
      UnescapeEscape(s[1..]);
      var e := Escape(s);
      if s[0] in SpecialChars {
        assert e == ['\\', s[0]] + Escape(s[1..]);
        assert e[2..] == Escape(s[1..]);
      } else {
        assert e == [s[0]] + Escape(s[1..]);
        assert e[1..] == Escape(s[1..]);
      }
      assert s == [s[0]] + s[1..];
    }
  }

  /** The anchored pattern for the destination's path relative to the source. */
  function SelfPattern(rel: Parts): string {
    "^" + Escape(AsPosix(PurePath(false, rel))) + "$"
  }

  /** The self-exclusion step of `main`, on resolved source and destination paths. */
  method ExcludeDestination(exclude: PyValue, srcAbs: Parts, destAbs: Parts) returns (finalExclude: PyValue)
    ensures finalExclude == SelfExclusion(exclude, srcAbs, destAbs)
  {
    finalExclude := exclude;
    if srcAbs <= destAbs {
      var excludePattern := SelfPattern(destAbs[|srcAbs|..]);
      var present := In(excludePattern, finalExclude);
      if present.Ok? && !present.value {
        if !finalExclude.PyList? {
          finalExclude := PyList(ListOf(finalExclude).value);
        }
        finalExclude := PyList(finalExclude.items + [PyStr(excludePattern)]);
      }
    }
  }

  /** The exclude value after the self-exclusion step, for resolved source and destination:
      when the destination lies under the source and its pattern is not already in the value,
      the value is turned into a list and the pattern appended. A TypeError from the `in` test
      is swallowed and leaves the value as it was. */
  function SelfExclusion(exclude: PyValue, src: Parts, dest: Parts): PyValue {
    if !(src <= dest) then exclude
    else
      var pattern := SelfPattern(dest[|src|..]);
      match In(pattern, exclude)
      case Err(_) => exclude
      case Ok(present) =>
        if present then exclude
        else PyList(ListOf(exclude).value + [PyStr(pattern)])
  }

  /** A pattern value handed to the walker: a list as it is, anything else as the empty list. */
  function Coerce(v: PyValue): seq<PyValue> {
    if v.PyList? then v.items else []
  }

  /** What `main` ends with: the file list it writes, or the failure it exits with. */
  function Outcome(args: Args, config: seq<(string, PyValue)>, defaults: Defaults, resolve: string -> Parts,
                   root: Entry, ignoreFiles: Parts -> IgnoreFile, o: Oracles)
    : Result<seq<string>, Failure>
  {
    var useGitignore := ResolveUseGitignore(args, config, defaults);
    var exclude := ResolvePatterns(args.exclude, config, "exclude_patterns", defaults.excludePatterns);
    var whitelist := ResolvePatterns(args.whitelist, config, "whitelist_patterns", defaults.whitelistPatterns);
    if HasDestination(args) == args.toStdout then Err(BadTarget)
    else
      var src := resolve(args.sourcePath);
      var exclude' := if HasDestination(args) then SelfExclusion(exclude, src, resolve(args.destinationFile.value)) else exclude;
      match DirectoryTree(src, root, Coerce(exclude'), Coerce(whitelist), Truthy(useGitignore), ignoreFiles, o)
      case Err(e) => Err(CollectionFailed(e))
      case Ok(tree) => Ok(tree)
  }

  /** `main` from the resolved settings on: exit status 1 for a bad target or a failed
      collection, else 0, with the output written only when the tree is non-empty. */
  method Run(args: Args, config: seq<(string, PyValue)>, defaults: Defaults, resolve: string -> Parts,
             root: Entry, ignoreFiles: Parts -> IgnoreFile, o: Oracles,
             read: string -> ReadOutcome, canOpen: bool, stdout: Stream)
    returns (status: int, file: Stream?)
    requires !stdout.closed
    modifies stdout
    ensures var out := Outcome(args, config, defaults, resolve, root, ignoreFiles, o);
      status == (if out.Ok? then 0 else 1)
    ensures var out := Outcome(args, config, defaults, resolve, root, ignoreFiles, o);
      stdout.text == old(stdout.text) +
        (if out.Ok? && out.value != [] && args.toStdout then Render(out.value, resolve(args.sourcePath), read) else "")
    ensures !stdout.closed
    ensures var out := Outcome(args, config, defaults, resolve, root, ignoreFiles, o);
      file != null <==> out.Ok? && out.value != [] && !args.toStdout && canOpen
    ensures var out := Outcome(args, config, defaults, resolve, root, ignoreFiles, o);
      file != null ==> (out.Ok? && fresh(file) && file.name == args.destinationFile.value &&
                        file.text == Render(out.value, resolve(args.sourcePath), read) && file.closed)
  {
    file := null;
    var useGitignore := ResolveUseGitignore(args, config, defaults);
    var finalExclude := ResolvePatterns(args.exclude, config, "exclude_patterns", defaults.excludePatterns);
    var finalWhitelist := ResolvePatterns(args.whitelist, config, "whitelist_patterns", defaults.whitelistPatterns);

    if !HasDestination(args) && !args.toStdout {
      return 1, null;
    }
    if HasDestination(args) && args.toStdout {
      return 1, null;
    }

    var srcAbs := resolve(args.sourcePath);
    if HasDestination(args) {
      finalExclude := ExcludeDestination(finalExclude, srcAbs, resolve(args.destinationFile.value));
    }

    var excludeList := Coerce(finalExclude);
    var whitelistList := Coerce(finalWhitelist);

    var collected := GenerateDirectoryTree(srcAbs, root, excludeList, whitelistList, Truthy(useGitignore), ignoreFiles, o);
    if collected.Err? {
      return 1, null;
    }
    var tree := collected.value;
    if tree != [] {
      file := CreateOutput(args.destinationFile, srcAbs, tree, args.toStdout, read, canOpen, stdout);
    } else {
      assert old(stdout.text) + "" == old(stdout.text);
    }
    return 0, file;
  }

  /** A command-line list replaces the configured one and the default, which are not read. */
  lemma CommandLineWins(flag: seq<string>, c1: seq<(string, PyValue)>, c2: seq<(string, PyValue)>,
                        key: string, d1: PyValue, d2: PyValue)
    ensures ResolvePatterns(Some(flag), c1, key, d1) == ResolvePatterns(Some(flag), c2, key, d2)
    ensures ResolvePatterns(Some(flag), c1, key, d1) == PyList(PyStrs(flag))
  {
  }

  /** A configuration lookup: the first entry with the key gives the value, whatever its
      type; the default is used only when the key is absent. */
  lemma LookupFirst(config: seq<(string, PyValue)>, key: string, default: PyValue)
    ensures forall i | 0 <= i < |config| && config[i].0 == key && (forall j | 0 <= j < i :: config[j].0 != key) ::
      Lookup(config, key, default) == config[i].1
    ensures !(exists i | 0 <= i < |config| :: config[i].0 == key) ==> Lookup(config, key, default) == default
  {
    forall i | 0 <= i < |config| && config[i].0 == key && (forall j | 0 <= j < i :: config[j].0 != key)
      ensures Lookup(config, key, default) == config[i].1
    {
      GetFirst(config, key, i);
    }
  }

  /** Without the flag, a configured value, whatever it is, replaces the default; the default
      is used only when the key is absent. */
  lemma ConfigOverDefault(config: seq<(string, PyValue)>, key: string, d1: PyValue, d2: PyValue)
    ensures (exists i | 0 <= i < |config| :: config[i].0 == key) ==>
      ResolvePatterns(None, config, key, d1) == ResolvePatterns(None, config, key, d2)
    ensures forall i | 0 <= i < |config| && config[i].0 == key && (forall j | 0 <= j < i :: config[j].0 != key) ::
      ResolvePatterns(None, config, key, d1) == config[i].1
    ensures !(exists i | 0 <= i < |config| :: config[i].0 == key) ==>
      ResolvePatterns(None, config, key, d1) == d1
  {
    LookupFirst(config, key, d1);
  }

  /** `--no-gitignore` turns gitignore filtering off whatever the configuration says; without
      it, the configured `use_gitignore` wins over the default. */
  lemma NoGitignoreWins(args: Args, config: seq<(string, PyValue)>, defaults: Defaults)
    ensures args.noGitignore ==> !Truthy(ResolveUseGitignore(args, config, defaults))
    ensures !args.noGitignore ==>
      forall i | 0 <= i < |config| && config[i].0 == "use_gitignore" && (forall j | 0 <= j < i :: config[j].0 != "use_gitignore") ::
        ResolveUseGitignore(args, config, defaults) == config[i].1
    ensures !args.noGitignore && !(exists i | 0 <= i < |config| :: config[i].0 == "use_gitignore") ==>
      ResolveUseGitignore(args, config, defaults) == defaults.useGitignore
  {
    LookupFirst(config, "use_gitignore", defaults.useGitignore);
  }

  /** The run fails on the target exactly when there is not exactly one of a destination and
      `--stdout`. */
  lemma TargetCheckIff(args: Args, config: seq<(string, PyValue)>, defaults: Defaults, resolve: string -> Parts,
                       root: Entry, ignoreFiles: Parts -> IgnoreFile, o: Oracles)
    ensures Outcome(args, config, defaults, resolve, root, ignoreFiles, o) == Err(BadTarget) <==>
      HasDestination(args) == args.toStdout
  {
  }

  /** After the self-exclusion step, a list value holds the destination's pattern exactly once
      more than it would otherwise need: it is present, and nothing else changed. */
  lemma SelfExclusionOnList(items: seq<PyValue>, src: Parts, dest: Parts)
    requires src <= dest
    ensures var pattern := SelfPattern(dest[|src|..]);
      var r := SelfExclusion(PyList(items), src, dest);
      r.PyList? && PyStr(pattern) in r.items &&
      (PyStr(pattern) in items ==> r.items == items) &&
      (PyStr(pattern) !in items ==> r.items == items + [PyStr(pattern)])
  {
  }

  /** A destination outside the source leaves the exclude value untouched. */
  lemma SelfExclusionOutside(v: PyValue, src: Parts, dest: Parts)
    requires !(src <= dest)
    ensures SelfExclusion(v, src, dest) == v
  {
  }

  /** An exclude value that is None, a boolean or a number (integer or float) makes the `in` test raise; the
      error is swallowed and the value is then coerced to the empty list, so the destination
      is not excluded. */
  lemma SelfExclusionLostForScalar(v: PyValue, src: Parts, dest: Parts)
    requires v.PyNone? || v.PyBool? || v.PyInt? || v.PyFloat?
    ensures Coerce(SelfExclusion(v, src, dest)) == []
  {
  }

  /** A string exclude value is split into one-character patterns, followed by the
      destination's pattern, unless it already contains that pattern as a substring, in which
      case it is coerced to the empty list. */
  lemma StringExcludeValue(s: string, src: Parts, dest: Parts)
    requires src <= dest
    ensures var pattern := SelfPattern(dest[|src|..]);
      Coerce(SelfExclusion(PyStr(s), src, dest)) ==
        if Contains(s, pattern) then [] else Chars(s) + [PyStr(pattern)]
  {
  }

  /** A tuple exclude value (possible only from the defaults) is copied into a list with the
      destination's pattern appended; when the tuple already holds the pattern it stays a
      tuple and is then coerced to the empty list, so every exclude pattern is dropped. */
  lemma TupleExcludeValue(elems: seq<PyValue>, src: Parts, dest: Parts)
    requires src <= dest
    ensures var pattern := SelfPattern(dest[|src|..]);
      Coerce(SelfExclusion(PyTuple(elems), src, dest)) ==
        if PyStr(pattern) in elems then [] else elems + [PyStr(pattern)]
  {
  }

  /** The destination file is never part of the written list when it lies under the source
      and the exclude setting resolved to a list, given that the regex engine finds the
      anchored escaped pattern in the path it was built from. */
  lemma DestinationNeverWritten(args: Args, config: seq<(string, PyValue)>, defaults: Defaults,
                                resolve: string -> Parts, root: Entry, ignoreFiles: Parts -> IgnoreFile, o: Oracles)
    requires HasDestination(args)
    requires ValidParts(resolve(args.sourcePath)) && ValidParts(resolve(args.destinationFile.value))
    requires WellFormed(root)
    requires resolve(args.sourcePath) <= resolve(args.destinationFile.value)
    requires ResolvePatterns(args.exclude, config, "exclude_patterns", defaults.excludePatterns).PyList?
    requires var src := resolve(args.sourcePath);
      var rel := resolve(args.destinationFile.value)[|src|..];
      o.search(SelfPattern(rel), JoinSlash(rel))
    ensures var out := Outcome(args, config, defaults, resolve, root, ignoreFiles, o);
      out.Ok? ==> AbsStr(resolve(args.destinationFile.value)) !in out.value
  {
    var src := resolve(args.sourcePath);
    var dest := resolve(args.destinationFile.value);
    var rel := dest[|src|..];
    var pattern := SelfPattern(rel);
    var exclude := ResolvePatterns(args.exclude, config, "exclude_patterns", defaults.excludePatterns);
    var whitelist := ResolvePatterns(args.whitelist, config, "whitelist_patterns", defaults.whitelistPatterns);
    var useGitignore := Truthy(ResolveUseGitignore(args, config, defaults));
    var excludeList := Coerce(SelfExclusion(exclude, src, dest));
    var c := Configure(src, excludeList, Coerce(whitelist), useGitignore, ignoreFiles, o);
    var out := Outcome(args, config, defaults, resolve, root, ignoreFiles, o);
    if out.Ok? && AbsStr(dest) in out.value {
      SelfExclusionOnList(exclude.items, src, dest);
      assert PyStr(pattern) in excludeList;
      assert c.Ok?;
      var f := c.value;
      assert pattern in f.exclude;
      TreeMembers(src, root, excludeList, Coerce(whitelist), useGitignore, ignoreFiles, o, AbsStr(dest));
      var x :| x in Selection(root, f, o) && AbsStr(dest) == AbsStr(src + x);
      SelectedValid(root, f, o, x);
      ValidPartsAppend(src, x);
      AbsStrInjective(dest, src + x);
      assert x == rel;
      assert AnySearch(f.exclude, JoinSlash(x), o);
      ExcludeAndIgnoreWin(root, f, o, x);
    }
  }
}
