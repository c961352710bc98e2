/** codeconcat/file_utils.py, the selection rules of `generate_directory_tree`: the directory
    tree, the pattern compilation, the per-directory pruning test, the per-file decision chain
    (exclude, then gitignore, then whitelist, then the MIME/extension default) and the
    top-down walk those rules define. */
module FileSelection {
  import opened Wrappers
  import opened Strings
  import opened Paths
  import opened PyValues

  /** Substrings that mark a MIME type as binary. */
  const ExcludedMimeTypes: seq<string> := ["application", "image", "audio", "video"]

  /** Name endings that mark a file as text whatever its MIME type. */
  const LanguageExtensions: seq<string> := [
    ".py", ".js", ".ts", ".tsx", ".java", ".c", ".cpp", ".cs", ".rb", ".php", ".swift", ".go",
    ".rs", ".kt", ".scala", ".pl", ".pm", ".sh", ".bat", ".cmd", ".ps1", ".vim", ".el", ".lisp",
    ".clj", ".hs", ".ml", ".fs", ".fsx", ".lua", ".r", ".m", ".sql", ".html", ".css", ".scss",
    ".sass", ".less", ".xml", ".json", ".yaml", ".yml", ".toml", ".ini", ".cfg", ".md", ".txt",
    ".log", ".csv", ".tsv", ".rst", ".tex", ".bib", ".org", ".nfo", ".asc", ".asciidoc", ".adoc",
    ".feature", ".gitignore", "LICENSE"
  ]

  /** What `magic.from_file(path, mime=True)` does for one file: returns a MIME type, raises
      MagicException with a message, raises FileNotFoundError, or raises anything else. */
  datatype Probe = Detected(mimeType: string) | MagicFailure(message: string) | Vanished | ProbeFailure

  /** The source tree as `os.walk` sees it. */
  datatype Entry =
    | File(name: string, probe: Probe)
    | Dir(name: string, children: seq<Entry>)

  /** The foreign matchers, as total functions:
      search(p, s)   -- `re.compile(p).search(s)` finds a match,
      regexValid(p)  -- `re.compile(p)` does not raise,
      ignoreMatch(ps, s) -- the pathspec compiled from the gitignore lines `ps` matches `s`,
      ignoreCompiles(ps) -- pathspec compiles the lines `ps` without raising. */
  datatype Oracles = Oracles(
    search: (string, string) -> bool,
    regexValid: string -> bool,
    ignoreMatch: (seq<string>, string) -> bool,
    ignoreCompiles: seq<string> -> bool)

  /** The exceptions that escape `generate_directory_tree`. */
  datatype WalkError = BadPattern(pattern: PyValue) | UndecodableGitignore(dir: Parts)

  /** The compiled filter state: exclude and whitelist regexes (non-empty strings), the
      `use_gitignore` flag and the gitignore spec, given by its lines (None: no spec). */
  datatype Filters = Filters(exclude: seq<string>, whitelist: seq<string>, useGitignore: bool, ignore: Option<seq<string>>)

  /** `[re.compile(p) for p in patterns if p]`, the error being the first truthy element that
      is not a string or not a valid regex. */
  function Compiled(ps: seq<PyValue>, o: Oracles): (r: Result<seq<string>, WalkError>)
    ensures r.Err? <==> exists i | 0 <= i < |ps| :: Truthy(ps[i]) && !(ps[i].PyStr? && o.regexValid(ps[i].s))
    ensures r.Ok? ==> forall s :: s in r.value <==> s != "" && PyStr(s) in ps
    ensures r.Ok? ==> forall s | s in r.value :: o.regexValid(s)
  {
    if ps == [] then Ok([])
    else
      var init := ps[..|ps| - 1];
      var p := ps[|ps| - 1];
      assert ps == init + [p];
      match Compiled(init, o)
      case Err(e) => Err(e)
      case Ok(cs) =>
        if !Truthy(p) then Ok(cs)
        else if p.PyStr? && o.regexValid(p.s) then Ok(cs + [p.s])
        else Err(BadPattern(p))
  }

  /** `any(p.search(text) for p in compiled)`: false for an empty list. */
  predicate AnySearch(patterns: seq<string>, text: string, o: Oracles) {
    exists p | p in patterns :: o.search(p, text)
  }

  /** The gitignore spec is consulted only when `use_gitignore` is set and a spec was loaded. */
  predicate IgnoreMatches(f: Filters, path: string, o: Oracles) {
    f.useGitignore && f.ignore.Some? && o.ignoreMatch(f.ignore.value, path)
  }

  /** A child directory with relative parts `rel` is dropped from `dirs` (not descended into):
      an exclude pattern finds its relative path, or the gitignore spec matches it with a
      trailing '/'. */
  predicate Pruned(rel: Parts, f: Filters, o: Oracles) {
    AnySearch(f.exclude, JoinSlash(rel), o) || IgnoreMatches(f, JoinSlash(rel) + "/", o)
  }

  /** `file_name.lower().endswith(LANGUAGE_EXTENSIONS) or file_name == "LICENSE"` */
  predicate IsLanguageFile(name: string) {
    (exists ext | ext in LanguageExtensions :: HasSuffix(Lower(name), ext)) || name == "LICENSE"
  }

  /** `any(excluded in mime_type for excluded in EXCLUDED_MIME_TYPES)` */
  predicate ExcludedMime(mimeType: string) {
    exists x | x in ExcludedMimeTypes :: Contains(mimeType, x)
  }

  /** Step 4, the default rule used when there is no whitelist. */
  predicate DefaultRule(name: string, probe: Probe) {
    match probe
    case Detected(m) => !ExcludedMime(m) || IsLanguageFile(name)
    case MagicFailure(msg) => Contains(Lower(msg), "failed to find magic") && IsLanguageFile(name)
    case Vanished => false
    case ProbeFailure => false
  }

  /** The decision chain for a file with relative parts `rel`: exclude patterns, then the
      gitignore spec, then the whitelist when there is one, else the default rule. */
  predicate Included(rel: Parts, file: Entry, f: Filters, o: Oracles)
    requires file.File?
  {
    var s := JoinSlash(rel);
    if AnySearch(f.exclude, s, o) then false
    else if IgnoreMatches(f, s, o) then false
    else if f.whitelist != [] then AnySearch(f.whitelist, s, o)
    else DefaultRule(file.name, file.probe)
  }

  /** The files directly in a directory (children `cs`, relative parts `dir`) that are
      selected, in listing order. */
  function SelectFiles(cs: seq<Entry>, dir: Parts, f: Filters, o: Oracles): seq<Parts> {
    if cs == [] then []
    else
      var c := cs[|cs| - 1];
      SelectFiles(cs[..|cs| - 1], dir, f, o)
        + (if c.File? && Included(dir + [c.name], c, f, o) then [dir + [c.name]] else [])
  }

  /** The files the walk selects under directory `d`, whose relative parts are `dir`: its own
      files first, then each kept subdirectory in listing order. */
  function WalkDir(d: Entry, dir: Parts, f: Filters, o: Oracles): seq<Parts>
    requires d.Dir?
    decreases d, 1
  {
    SelectFiles(d.children, dir, f, o) + WalkSubdirs(d.children, dir, f, o)
  }

  /** What the kept subdirectories among `cs` contribute, in listing order. */
  function WalkSubdirs(cs: seq<Entry>, dir: Parts, f: Filters, o: Oracles): seq<Parts>
    decreases cs, 0
  {
    if cs == [] then []
    else
      var c := cs[|cs| - 1];
      WalkSubdirs(cs[..|cs| - 1], dir, f, o)
        + (if c.Dir? && !Pruned(dir + [c.name], f, o) then WalkDir(c, dir + [c.name], f, o) else [])
  }

  /** The relative parts of every selected file, in walk order; a source that is not a
      directory yields nothing, as `os.walk` does. */
  function Selection(root: Entry, f: Filters, o: Oracles): seq<Parts> {
    if root.Dir? then WalkDir(root, [], f, o) else []
  }

  /** The "LICENSE" entry of LANGUAGE_EXTENSIONS never matches: it is tested against the
      lower-cased name, which has no upper-case letter. Only the `== "LICENSE"` test admits it. */
  lemma LicenseEntryNeverMatches(name: string)
    ensures !HasSuffix(Lower(name), "LICENSE")
  {
  }

  /** With libmagic missing, a file whose name has none of the listed endings and is not
      "LICENSE" is never taken by the default rule. */
  lemma ClassifierFallbackExcludes(name: string, msg: string)
    requires Contains(Lower(msg), "failed to find magic")
    requires !IsLanguageFile(name)
    ensures !DefaultRule(name, MagicFailure(msg))
  {
  }
}
