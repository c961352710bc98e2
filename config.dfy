/** codeconcat/config.py: the package's default constants and `load_config`, which turns
    a JSON configuration file into the two pattern lists "exclude" and "whitelist". */
module Config {
  import opened Wrappers
  import opened PyValues

  const ConfigFileName: string := ".codeconcat_config.json"
  const GitignoreFileName: string := ".gitignore"

  /** MIME prefixes the configuration module names as likely binary. */
  const ExcludedMimePrefixes: seq<string> := ["application/", "image/", "audio/", "video/"]

  const DefaultWhitelistExtensions: set<string> := {
    ".py", ".pyw", ".pyi", ".js", ".mjs", ".cjs", ".ts", ".tsx", ".java", ".c", ".h", ".cpp",
    ".hpp", ".cs", ".rb", ".php", ".swift", ".go", ".rs", ".kt", ".kts", ".scala", ".pl", ".pm",
    ".sh", ".bash", ".zsh", ".ps1", ".lua", ".sql", ".r", ".dart", ".groovy", ".hs", ".lhs", ".ml",
    ".mli", ".fs", ".fsx", ".fsi", ".elm", ".clj", ".cljs", ".edn", ".ex", ".exs", ".erl", ".hrl",
    ".vim", ".el",
    ".html", ".htm", ".css", ".scss", ".sass", ".less", ".xml", ".json", ".yaml", ".yml", ".toml",
    ".ini", ".cfg", ".conf", ".properties", ".md", ".markdown", ".rst", ".adoc", ".asciidoc", ".tex",
    ".bib", ".csv", ".tsv", ".log", ".txt", ".env", ".dockerfile", "dockerfile", ".gitignore",
    ".gitattributes", ".editorconfig",
    ".nfo", ".readme", ".inf", ".url"
  }

  const DefaultExcludePatterns: seq<string> := [
    ".*", "__pycache__", "*.pyc", "*.pyo", "*.pyd", "*.so", "*.o", "*.a", "*.dll", "*.exe",
    "node_modules", "vendor", "build", "dist", "target", "*.egg-info", ".venv", "venv", "env", ".env",
    ".pytest_cache", ".mypy_cache", ".ruff_cache", "*.lock", "package-lock.json", "yarn.lock",
    "poetry.lock", "Pipfile.lock", "*.swp", "*.swo"
  ]

  /** What reading the configuration path yields: no regular file there, an error while
      opening or reading it, text that is not JSON, or the decoded JSON value. */
  datatype ConfigSource = NotAFile | ReadFailure | MalformedJson | Decoded(data: PyValue)

  /** `[str(p) for p in items if isinstance(p, str)]` */
  function StringsOnly(items: seq<PyValue>): seq<string> {
    if items == [] then []
    else
      var last := items[|items| - 1];
      StringsOnly(items[..|items| - 1]) + (if last.PyStr? then [last.s] else [])
  }

  /** Filtering distributes over concatenation: each element is kept or dropped on its own,
      and the kept ones stay in their original order. */
  lemma {:induction false} StringsOnlyAppend(a: seq<PyValue>, b: seq<PyValue>)
    ensures StringsOnly(a + b) == StringsOnly(a) + StringsOnly(b)
  {
    if b != [] {
      assert (a + b)[..|a + b| - 1] == a + b[..|b| - 1];
      StringsOnlyAppend(a, b[..|b| - 1]);
    } else {
      assert a + b == a;
    }
  }

  /** A string survives exactly when it was an element; nothing else is produced. */
  lemma {:induction false} StringsOnlyMembers(items: seq<PyValue>, s: string)
    ensures s in StringsOnly(items) <==> PyStr(s) in items
  {
    if items != [] {
      StringsOnlyMembers(items[..|items| - 1], s);
      assert items == items[..|items| - 1] + [items[|items| - 1]];
    }
  }

  /** The list stored under `key` when the decoded value there is a list, and [] otherwise. */
  function ListField(entries: seq<(string, PyValue)>, key: string): seq<string> {
    match Get(entries, key)
    case Some(PyList(items)) => StringsOnly(items)
    case _ => []
  }

  const Defaults: map<string, seq<string>> := map["exclude" := [], "whitelist" := []]

  /** The configuration `load_config` returns for a given file. */
  function Loaded(src: ConfigSource): (config: map<string, seq<string>>)
    ensures config.Keys == {"exclude", "whitelist"}
  {
    if src.Decoded? && src.data.PyDict? then
      map["exclude" := ListField(src.data.entries, "exclude"),
          "whitelist" := ListField(src.data.entries, "whitelist")]
    else Defaults
  }

  /** `load_config(config_path)`: start from the defaults and overwrite a key only when the
      decoded file is an object whose value under that key is a list. A missing file, a read
      or decode error, or a decoded value that is not an object (where `data.get` raises) all
      leave the defaults in place; nothing is raised. */
  method LoadConfig(src: ConfigSource) returns (config: map<string, seq<string>>)
    ensures config.Keys == {"exclude", "whitelist"}
    ensures !(src.Decoded? && src.data.PyDict?) ==> config["exclude"] == [] && config["whitelist"] == []
    ensures src.Decoded? && src.data.PyDict? ==>
              config["exclude"] == ListField(src.data.entries, "exclude") &&
              config["whitelist"] == ListField(src.data.entries, "whitelist")
    ensures config == Loaded(src)
  {
    config := map["exclude" := [], "whitelist" := []];
    if !src.Decoded? {
      return;
    }
    if !src.data.PyDict? {
      return;
    }
    var loadedExclude := Get(src.data.entries, "exclude");
    var loadedWhitelist := Get(src.data.entries, "whitelist");
    if loadedExclude.Some? && loadedExclude.value.PyList? {
      config := config["exclude" := StringsOnly(loadedExclude.value.items)];
    }
    if loadedWhitelist.Some? && loadedWhitelist.value.PyList? {
      config := config["whitelist" := StringsOnly(loadedWhitelist.value.items)];
    }
  }

  /** Keys other than "exclude" and "whitelist" (such as "use_gitignore") have no effect. */
  lemma OtherKeysIgnored(a: seq<(string, PyValue)>, b: seq<(string, PyValue)>)
    requires Get(a, "exclude") == Get(b, "exclude")
    requires Get(a, "whitelist") == Get(b, "whitelist")
    ensures Loaded(Decoded(PyDict(a))) == Loaded(Decoded(PyDict(b)))
  {
  }
}
