/** codeconcat/file_utils.py `generate_directory_tree`: load the gitignore spec, compile the
    patterns, walk the tree top-down with an explicit stack of pending directories (as `os.walk`
    does), pruning directories and filtering files, then sort the absolute paths. */
module Walker {
  import opened Wrappers
  import opened Paths
  import opened Sorting
  import opened Strings
  import PyValues
  import opened Gitignore
  import opened FileSelection
  import opened SelectionFacts

  /** A directory still to be visited, with its path relative to the source root. */
  datatype Pending = Pending(dir: Entry, rel: Parts)

  predicate AllDirs(ps: seq<Pending>) {
    forall i | 0 <= i < |ps| :: ps[i].dir.Dir?
  }

  /** What visiting the pending directories in order yields. */
  function WalkPending(ps: seq<Pending>, f: Filters, o: Oracles): seq<Parts>
    requires AllDirs(ps)
  {
    if ps == [] then [] else WalkDir(ps[0].dir, ps[0].rel, f, o) + WalkPending(ps[1..], f, o)
  }

  lemma {:induction false} WalkPendingAppend(a: seq<Pending>, b: seq<Pending>, f: Filters, o: Oracles)
    requires AllDirs(a) && AllDirs(b)
    ensures AllDirs(a + b)
    ensures WalkPending(a + b, f, o) == WalkPending(a, f, o) + WalkPending(b, f, o)
    decreases |a|
  {
    if a == [] {
      assert a + b == b;
    } else {
      assert (a + b)[0] == a[0];
      assert (a + b)[1..] == a[1..] + b;
      WalkPendingAppend(a[1..], b, f, o);
    }
  }

  /** The subdirectories among `cs` that survive pruning, in listing order: the new `dirs[:]`. */
  function KeptDirs(cs: seq<Entry>, dir: Parts, f: Filters, o: Oracles): (r: seq<Pending>)
    ensures AllDirs(r)
  {
    if cs == [] then []
    else
      var c := cs[|cs| - 1];
      KeptDirs(cs[..|cs| - 1], dir, f, o)
        + (if c.Dir? && !Pruned(dir + [c.name], f, o) then [Pending(c, dir + [c.name])] else [])
  }

  /** Visiting the kept subdirectories one after another yields what the recursive walk does. */
  lemma {:induction false} WalkSubdirsAsPending(cs: seq<Entry>, dir: Parts, f: Filters, o: Oracles)
    ensures WalkSubdirs(cs, dir, f, o) == WalkPending(KeptDirs(cs, dir, f, o), f, o)
    decreases |cs|
  {
    if cs != [] {
      var c := cs[|cs| - 1];
      var init := cs[..|cs| - 1];
      WalkSubdirsAsPending(init, dir, f, o);
      var tail := if c.Dir? && !Pruned(dir + [c.name], f, o) then [Pending(c, dir + [c.name])] else [];
      WalkPendingAppend(KeptDirs(init, dir, f, o), tail, f, o);
      if tail != [] {
        assert WalkPending(tail, f, o) == WalkDir(c, dir + [c.name], f, o) + WalkPending([], f, o);
      }
    }
  }

  function Size(e: Entry): nat
    decreases e, 1
  {
    match e
    case File(_, _) => 1
    case Dir(_, cs) => 1 + SizeAll(cs)
  }

  function SizeAll(cs: seq<Entry>): nat
    decreases cs, 0
  {
    if cs == [] then 0 else SizeAll(cs[..|cs| - 1]) + Size(cs[|cs| - 1])
  }

  function PendingSize(ps: seq<Pending>): nat {
    if ps == [] then 0 else Size(ps[0].dir) + PendingSize(ps[1..])
  }

  lemma {:induction false} PendingSizeAppend(a: seq<Pending>, b: seq<Pending>)
    ensures PendingSize(a + b) == PendingSize(a) + PendingSize(b)
    decreases |a|
  {
    if a == [] {
      assert a + b == b;
    } else {
      assert (a + b)[0] == a[0];
      assert (a + b)[1..] == a[1..] + b;
      PendingSizeAppend(a[1..], b);
    }
  }

  lemma {:induction false} KeptDirsSize(cs: seq<Entry>, dir: Parts, f: Filters, o: Oracles)
    ensures PendingSize(KeptDirs(cs, dir, f, o)) <= SizeAll(cs)
    decreases |cs|
  {
    if cs != [] {
      var c := cs[|cs| - 1];
      var init := cs[..|cs| - 1];
      KeptDirsSize(init, dir, f, o);
      var tail := if c.Dir? && !Pruned(dir + [c.name], f, o) then [Pending(c, dir + [c.name])] else [];
      PendingSizeAppend(KeptDirs(init, dir, f, o), tail);
      assert PendingSize(tail) <= Size(c);
    }
  }

  /** `str(file_path_obj.resolve())` for each relative path under the resolved source `src`. */
  function AbsPaths(src: Parts, xs: seq<Parts>): (r: seq<string>)
    ensures |r| == |xs| && forall i | 0 <= i < |xs| :: r[i] == AbsStr(src + xs[i])
  {
    seq(|xs|, i requires 0 <= i < |xs| => AbsStr(src + xs[i]))
  }

  lemma AbsPathsAppend(src: Parts, a: seq<Parts>, b: seq<Parts>)
    ensures AbsPaths(src, a + b) == AbsPaths(src, a) + AbsPaths(src, b)
  {
  }

  /** The gitignore spec, when enabled; an undecodable `.gitignore` escapes. */
  function IgnoreSpec(src: Parts, useGitignore: bool, ignoreFiles: Parts -> IgnoreFile, o: Oracles)
    : Result<Option<seq<string>>, WalkError>
  {
    if !useGitignore then Ok(None)
    else
      match LoadedSpec(src, ignoreFiles, o.ignoreCompiles)
      case Err(e) => Err(UndecodableGitignore(e.dir))
      case Ok(spec) => Ok(spec)
  }

  /** The set-up before the walk, in the source's order: gitignore spec, excludes, whitelist. */
  function Configure(src: Parts, exclude: seq<PyValues.PyValue>, whitelist: seq<PyValues.PyValue>,
                     useGitignore: bool, ignoreFiles: Parts -> IgnoreFile, o: Oracles)
    : (r: Result<Filters, WalkError>)
    ensures r.Ok? ==> r.value.useGitignore == useGitignore
  {
    var spec :- IgnoreSpec(src, useGitignore, ignoreFiles, o);
    var ex :- Compiled(exclude, o);
    var wl :- Compiled(whitelist, o);
    Ok(Filters(ex, wl, useGitignore, spec))
  }

  /** What `generate_directory_tree` returns: the absolute paths of the selected files, sorted. */
  function DirectoryTree(src: Parts, root: Entry, exclude: seq<PyValues.PyValue>, whitelist: seq<PyValues.PyValue>,
                         useGitignore: bool, ignoreFiles: Parts -> IgnoreFile, o: Oracles)
    : Result<seq<string>, WalkError>
  {
    var f :- Configure(src, exclude, whitelist, useGitignore, ignoreFiles, o);
    Ok(Sort(AbsPaths(src, Selection(root, f, o))))
  }

  lemma ConcatRegroup<T>(a: seq<T>, b: seq<T>, c: seq<T>, d: seq<T>)
    ensures (a + b) + (c + d) == a + ((b + c) + d)
  {
  }

  /** The directory filter of one walk step: `dirs[:]` rebuilt from the original listing,
      dropping subdirectories an exclude pattern or the gitignore spec matches. */
  method PruneDirs(children: seq<Entry>, rel: Parts, f: Filters, o: Oracles) returns (kept: seq<Pending>)
    ensures kept == KeptDirs(children, rel, f, o)
  {
    kept := [];
    for i := 0 to |children|
      invariant kept == KeptDirs(children[..i], rel, f, o)
    {
      assert children[..i + 1][..i] == children[..i];
      var d := children[i];
      if d.Dir? {
        var dirRel := rel + [d.name];
        var dirRelStr := JoinSlash(dirRel);
        if AnySearch(f.exclude, dirRelStr, o) {
          continue;
        }
        if f.useGitignore && f.ignore.Some? && o.ignoreMatch(f.ignore.value, dirRelStr + "/") {
          continue;
        }
        kept := kept + [Pending(d, dirRel)];
      }
    }
    assert children[..|children|] == children;
  }

  /** The decision for one file of a listing: exclude patterns, then the gitignore spec, then
      the whitelist when there is one, else the MIME type with the extension fallback. */
  method TakeFile(file: Entry, fileRel: Parts, f: Filters, o: Oracles) returns (take: bool)
    requires file.File?
    ensures take == Included(fileRel, file, f, o)
  {
    var relStr := JoinSlash(fileRel);
    if AnySearch(f.exclude, relStr, o) {
      return false;
    }
    if f.useGitignore && f.ignore.Some? && o.ignoreMatch(f.ignore.value, relStr) {
      return false;
    }
    var isWhitelisted := false;
    if f.whitelist != [] {
      if AnySearch(f.whitelist, relStr, o) {
        isWhitelisted := true;
      } else {
        return false;
      }
    }
    if isWhitelisted {
      return true;
    }
    take := false;
    match file.probe {
      case Detected(mimeType) =>
        take := !ExcludedMime(mimeType) || IsLanguageFile(file.name);
      case MagicFailure(message) =>
        if Contains(Lower(message), "failed to find magic") {
          take := IsLanguageFile(file.name);
        }
      case Vanished =>
      case ProbeFailure =>
    }
  }

  /** The file filter of one walk step: the absolute paths of the files of the listing that
      are taken are appended to `tree`, in listing order. */
  method FilterFiles(tree: seq<string>, src: Parts, children: seq<Entry>, rel: Parts, f: Filters, o: Oracles)
    returns (tree': seq<string>)
    ensures tree' == tree + AbsPaths(src, SelectFiles(children, rel, f, o))
  {
    tree' := tree;
    for i := 0 to |children|
      invariant tree' == tree + AbsPaths(src, SelectFiles(children[..i], rel, f, o))
    {
      assert children[..i + 1][..i] == children[..i];
      var file := children[i];
      var fileRel := rel + [file.name];
      AbsPathsAppend(src, SelectFiles(children[..i], rel, f, o), [fileRel]);
      if file.File? {
        var take := TakeFile(file, fileRel, f, o);
        if take {
          tree' := tree' + [AbsStr(src + fileRel)];
        }
      }
    }
    assert children[..|children|] == children;
  }

  /** `generate_directory_tree`, with `os.walk`'s stack of pending directories as a worklist:
      each visited directory first has its subdirectories pruned in place, then its files
      filtered, and the kept subdirectories are visited next, in listing order. */
  method GenerateDirectoryTree(src: Parts, root: Entry, exclude: seq<PyValues.PyValue>,
                               whitelist: seq<PyValues.PyValue>, useGitignore: bool,
                               ignoreFiles: Parts -> IgnoreFile, o: Oracles)
    returns (r: Result<seq<string>, WalkError>)
    ensures r == DirectoryTree(src, root, exclude, whitelist, useGitignore, ignoreFiles, o)
  {
    var spec: Option<seq<string>> := None;
    if useGitignore {
      var loaded := LoadGitignorePatterns(src, ignoreFiles, o.ignoreCompiles);
      if loaded.Err? {
        return Err(UndecodableGitignore(loaded.error.dir));
      }
      spec := loaded.value;
    }
    var compiledExclude := Compiled(exclude, o);
    if compiledExclude.Err? {
      return Err(compiledExclude.error);
    }
    var compiledWhitelist := Compiled(whitelist, o);
    if compiledWhitelist.Err? {
      return Err(compiledWhitelist.error);
    }
    var f := Filters(compiledExclude.value, compiledWhitelist.value, useGitignore, spec);
    assert Configure(src, exclude, whitelist, useGitignore, ignoreFiles, o) == Ok(f);

    var tree: seq<string> := [];
    if root.Dir? {
      ghost var walked: seq<Parts> := [];
      var stack := [Pending(root, [])];
      assert WalkPending(stack, f, o) == WalkDir(root, [], f, o) + WalkPending([], f, o);
      while stack != []
        invariant AllDirs(stack)
        invariant walked + WalkPending(stack, f, o) == WalkDir(root, [], f, o)
        invariant tree == AbsPaths(src, walked)
        decreases PendingSize(stack)
      {
        var current := stack[0];
        var rest := stack[1..];
        var kept := PruneDirs(current.dir.children, current.rel, f, o);
        tree := FilterFiles(tree, src, current.dir.children, current.rel, f, o);
        ghost var files := SelectFiles(current.dir.children, current.rel, f, o);
        ghost var subdirs := WalkSubdirs(current.dir.children, current.rel, f, o);
        AbsPathsAppend(src, walked, files);
        assert WalkPending(stack, f, o) == (files + subdirs) + WalkPending(rest, f, o);
        WalkSubdirsAsPending(current.dir.children, current.rel, f, o);
        WalkPendingAppend(kept, rest, f, o);
        assert WalkPending(kept + rest, f, o) == subdirs + WalkPending(rest, f, o);
        ConcatRegroup(walked, files, subdirs, WalkPending(rest, f, o));
        walked := walked + files;
        KeptDirsSize(current.dir.children, current.rel, f, o);
        PendingSizeAppend(kept, rest);
        stack := kept + rest;
      }
      assert walked == WalkDir(root, [], f, o);
    }
    tree := Sort(tree);
    return Ok(tree);
  }

  /** The set-up fails exactly when the gitignore spec is enabled and some `.gitignore` from the
      source up to the filesystem root cannot be decoded, or some truthy exclude or whitelist
      entry is not a valid regex string. */
  lemma ConfigureFailsIff(src: Parts, exclude: seq<PyValues.PyValue>, whitelist: seq<PyValues.PyValue>,
                          useGitignore: bool, ignoreFiles: Parts -> IgnoreFile, o: Oracles)
    ensures Configure(src, exclude, whitelist, useGitignore, ignoreFiles, o).Err? <==>
      (useGitignore && exists k | 0 <= k <= |src| :: ignoreFiles(src[..k]).DecodeError?) ||
      Compiled(exclude, o).Err? || Compiled(whitelist, o).Err?
  {
    UpwardFailsIff(src, ignoreFiles);
  }

  /** Without a gitignore spec in force, only the regexes and the tree decide the result: the
      `.gitignore` files on disk and the pathspec matcher do not matter. */
  lemma TreeIgnoresGitignoreWhenDisabled(src: Parts, root: Entry, exclude: seq<PyValues.PyValue>,
                                         whitelist: seq<PyValues.PyValue>, ignoreFiles1: Parts -> IgnoreFile,
                                         ignoreFiles2: Parts -> IgnoreFile, o1: Oracles, o2: Oracles)
    requires o1.search == o2.search && o1.regexValid == o2.regexValid
    ensures DirectoryTree(src, root, exclude, whitelist, false, ignoreFiles1, o1) ==
            DirectoryTree(src, root, exclude, whitelist, false, ignoreFiles2, o2)
  {
    var c1 := Configure(src, exclude, whitelist, false, ignoreFiles1, o1);
    var c2 := Configure(src, exclude, whitelist, false, ignoreFiles2, o2);
    CompiledOracle(exclude, o1, o2);
    CompiledOracle(whitelist, o1, o2);
    if c1.Ok? {
      GitignoreUnusedWhenDisabled(root, c1.value, o1, c2.value, o2);
    }
  }

  lemma {:induction false} CompiledOracle(ps: seq<PyValues.PyValue>, o1: Oracles, o2: Oracles)
    requires o1.regexValid == o2.regexValid
    ensures Compiled(ps, o1) == Compiled(ps, o2)
    decreases |ps|
  {
    if ps != [] {
      CompiledOracle(ps[..|ps| - 1], o1, o2);
    }
  }

  /** The returned list is in ascending code-point order. */
  lemma TreeSorted(src: Parts, root: Entry, exclude: seq<PyValues.PyValue>, whitelist: seq<PyValues.PyValue>,
                   useGitignore: bool, ignoreFiles: Parts -> IgnoreFile, o: Oracles)
    ensures var r := DirectoryTree(src, root, exclude, whitelist, useGitignore, ignoreFiles, o);
      r.Ok? ==> Sorted(r.value)
  {
  }

  /** A string is in the returned list exactly when it is the absolute path of a selected file. */
  lemma TreeMembers(src: Parts, root: Entry, exclude: seq<PyValues.PyValue>, whitelist: seq<PyValues.PyValue>,
                    useGitignore: bool, ignoreFiles: Parts -> IgnoreFile, o: Oracles, s: string)
    requires Configure(src, exclude, whitelist, useGitignore, ignoreFiles, o).Ok?
    ensures var f := Configure(src, exclude, whitelist, useGitignore, ignoreFiles, o).value;
      s in DirectoryTree(src, root, exclude, whitelist, useGitignore, ignoreFiles, o).value <==>
      exists x :: x in Selection(root, f, o) && s == AbsStr(src + x)
  {
    var f := Configure(src, exclude, whitelist, useGitignore, ignoreFiles, o).value;
    var paths := AbsPaths(src, Selection(root, f, o));
    var r := DirectoryTree(src, root, exclude, whitelist, useGitignore, ignoreFiles, o);
    assert multiset(r.value) == multiset(paths);
    assert s in r.value <==> s in multiset(r.value);
    assert s in paths <==> s in multiset(paths);
    if s in paths {
      var i :| 0 <= i < |paths| && paths[i] == s;
      assert Selection(root, f, o)[i] in Selection(root, f, o);
    }
  }

  /** Two distinct positions holding the same element make that element's count at least two. */
  lemma RepeatCounts<T>(b: seq<T>, i: nat, j: nat)
    requires i < j < |b| && b[i] == b[j]
    ensures multiset(b)[b[i]] >= 2
  {
    assert b == b[..i] + [b[i]] + b[i + 1..j] + [b[j]] + b[j + 1..];
  }

  lemma {:induction false} DistinctCounts<T>(a: seq<T>, x: T)
    requires Distinct(a)
    ensures multiset(a)[x] <= 1
    decreases |a|
  {
    if a != [] {
      assert a == [a[0]] + a[1..];
      assert Distinct(a[1..]) by {
        forall i, j | 0 <= i < j < |a[1..]| ensures a[1..][i] != a[1..][j] {
          assert a[1..][i] == a[i + 1] && a[1..][j] == a[j + 1];
        }
      }
      DistinctCounts(a[1..], x);
      if x == a[0] {
        assert x !in a[1..];
      }
    }
  }

  lemma DistinctPermutation<T>(a: seq<T>, b: seq<T>)
    requires Distinct(a) && multiset(a) == multiset(b)
    ensures Distinct(b)
  {
    forall i, j | 0 <= i < j < |b|
      ensures b[i] != b[j]
    {
      if b[i] == b[j] {
        RepeatCounts(b, i, j);
        DistinctCounts(a, b[i]);
      }
    }
  }

  lemma ValidPartsAppend(a: Parts, b: Parts)
    requires ValidParts(a) && ValidParts(b)
    ensures ValidParts(a + b)
  {
    forall i | 0 <= i < |a + b| ensures ValidName((a + b)[i]) {
      if i < |a| { assert (a + b)[i] == a[i]; } else { assert (a + b)[i] == b[i - |a|]; }
    }
  }

  /** For a well-formed tree under a source given by valid names, the returned list has no
      duplicates: each selected file appears once. */
  lemma TreeDistinct(src: Parts, root: Entry, exclude: seq<PyValues.PyValue>, whitelist: seq<PyValues.PyValue>,
                     useGitignore: bool, ignoreFiles: Parts -> IgnoreFile, o: Oracles)
    requires ValidParts(src) && WellFormed(root)
    ensures var r := DirectoryTree(src, root, exclude, whitelist, useGitignore, ignoreFiles, o);
      r.Ok? ==> Distinct(r.value)
  {
    var c := Configure(src, exclude, whitelist, useGitignore, ignoreFiles, o);
    if c.Ok? {
      var sel := Selection(root, c.value, o);
      var paths := AbsPaths(src, sel);
      SelectionDistinct(root, c.value, o);
      forall i, j | 0 <= i < j < |paths|
        ensures paths[i] != paths[j]
      {
        SelectedValid(root, c.value, o, sel[i]);
        SelectedValid(root, c.value, o, sel[j]);
        ValidPartsAppend(src, sel[i]);
        ValidPartsAppend(src, sel[j]);
        assert (src + sel[i])[|src|..] == sel[i];
        assert (src + sel[j])[|src|..] == sel[j];
        if paths[i] == paths[j] {
          AbsStrInjective(src + sel[i], src + sel[j]);
        }
      }
      DistinctPermutation(paths, Sort(paths));
    }
  }
}
