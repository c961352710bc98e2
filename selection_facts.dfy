/** What the walk of `generate_directory_tree` selects, characterised without the walk: a path
    is selected exactly when it names a file of the tree, none of its proper ancestor
    directories is pruned, and the decision chain accepts the file. Under well-formed trees
    (valid, distinct names per directory) the selection has no duplicates. */
module SelectionFacts {
  import opened Paths
  import opened FileSelection

  /** `e` is the file reached from directory `d` by following the names `q`. */
  predicate HasFile(d: Entry, q: Parts, e: Entry)
    decreases d
  {
    d.Dir? && |q| >= 1 &&
    exists i | 0 <= i < |d.children| ::
      (|q| == 1 && d.children[i] == e && e.File? && e.name == q[0]) ||
      (|q| > 1 && d.children[i].Dir? && d.children[i].name == q[0] && HasFile(d.children[i], q[1..], e))
  }

  /** No directory strictly between `x[..m]` and `x` (exclusive) is pruned. */
  predicate NoPrunedBetween(x: Parts, m: nat, f: Filters, o: Oracles) {
    forall k | m < k < |x| :: !Pruned(x[..k], f, o)
  }

  /** A file under `d` (relative parts `dir`) that the rules select, stated without the walk. */
  ghost predicate Eligible(d: Entry, dir: Parts, x: Parts, f: Filters, o: Oracles) {
    |x| > |dir| && x[..|dir|] == dir && NoPrunedBetween(x, |dir|, f, o) &&
    exists e :: HasFile(d, x[|dir|..], e) && e.File? && Included(x, e, f, o)
  }

  /** Each directory's entries have valid, pairwise distinct names, recursively. */
  predicate WellFormed(e: Entry)
    decreases e
  {
    e.Dir? ==>
      (forall i | 0 <= i < |e.children| :: ValidName(e.children[i].name) && WellFormed(e.children[i])) &&
      (forall i, j | 0 <= i < j < |e.children| :: e.children[i].name != e.children[j].name)
  }

  ghost predicate Distinct<T>(s: seq<T>) {
    forall i, j | 0 <= i < j < |s| :: s[i] != s[j]
  }

  lemma DistinctAppend<T>(a: seq<T>, b: seq<T>)
    requires Distinct(a) && Distinct(b)
    requires forall x | x in a :: x !in b
    ensures Distinct(a + b)
  {
    forall i, j | 0 <= i < j < |a + b|
      ensures (a + b)[i] != (a + b)[j]
    {
      if j < |a| {
        assert (a + b)[i] == a[i] && (a + b)[j] == a[j];
      } else if i >= |a| {
        assert (a + b)[i] == b[i - |a|] && (a + b)[j] == b[j - |a|];
      } else {
        assert (a + b)[i] == a[i] && a[i] in a;
        assert (a + b)[j] == b[j - |a|];
      }
    }
  }

  /** The files of one directory listing that are selected. */
  lemma {:induction false} SelectFilesIff(cs: seq<Entry>, dir: Parts, f: Filters, o: Oracles, x: Parts)
    ensures x in SelectFiles(cs, dir, f, o) <==>
      exists i | 0 <= i < |cs| :: cs[i].File? && x == dir + [cs[i].name] && Included(x, cs[i], f, o)
    decreases |cs|
  {
    if cs != [] {
      var n := |cs| - 1;
      var init := cs[..n];
      SelectFilesIff(init, dir, f, o, x);
      if x in SelectFiles(cs, dir, f, o) && x !in SelectFiles(init, dir, f, o) {
        assert cs[n].File? && x == dir + [cs[n].name] && Included(x, cs[n], f, o);
      }
      if exists i | 0 <= i < |cs| :: cs[i].File? && x == dir + [cs[i].name] && Included(x, cs[i], f, o) {
        var i :| 0 <= i < |cs| && cs[i].File? && x == dir + [cs[i].name] && Included(x, cs[i], f, o);
        if i < n {
          assert init[i] == cs[i];
        }
      }
    }
  }

  /** `c`, a child of the directory `dir`, is kept and its walk yields `x`. */
  predicate SubdirYields(c: Entry, dir: Parts, x: Parts, f: Filters, o: Oracles) {
    c.Dir? && !Pruned(dir + [c.name], f, o) && x in WalkDir(c, dir + [c.name], f, o)
  }

  /** The concatenation of `parts`, in order. */
  function Flatten<U>(parts: seq<seq<U>>): seq<U> {
    if parts == [] then [] else Flatten(parts[..|parts| - 1]) + parts[|parts| - 1]
  }

  lemma {:induction false} FlattenIff<U>(parts: seq<seq<U>>, x: U)
    ensures x in Flatten(parts) <==> exists i | 0 <= i < |parts| :: x in parts[i]
    decreases |parts|
  {
    if parts != [] {
      var n := |parts| - 1;
      FlattenIff(parts[..n], x);
      if exists i | 0 <= i < |parts| :: x in parts[i] {
        var i :| 0 <= i < |parts| && x in parts[i];
        if i < n {
          assert parts[..n][i] == parts[i];
        }
      }
      if x in Flatten(parts[..n]) {
        var i :| 0 <= i < n && x in parts[..n][i];
        assert parts[..n][i] == parts[i];
      }
    }
  }

  /** What one child `c` of the directory `dir` contributes to the walk. */
  function Tail(c: Entry, dir: Parts, f: Filters, o: Oracles): seq<Parts> {
    if c.Dir? && !Pruned(dir + [c.name], f, o) then WalkDir(c, dir + [c.name], f, o) else []
  }

  function Tails(cs: seq<Entry>, dir: Parts, f: Filters, o: Oracles): (r: seq<seq<Parts>>)
    ensures |r| == |cs| && forall i | 0 <= i < |cs| :: r[i] == Tail(cs[i], dir, f, o)
  {
    seq(|cs|, i requires 0 <= i < |cs| => Tail(cs[i], dir, f, o))
  }

  /** The subdirectory part of the walk is the children's contributions, concatenated. */
  lemma {:induction false} WalkSubdirsFlatten(cs: seq<Entry>, dir: Parts, f: Filters, o: Oracles)
    ensures WalkSubdirs(cs, dir, f, o) == Flatten(Tails(cs, dir, f, o))
    decreases |cs|
  {
    if cs != [] {
      var n := |cs| - 1;
      WalkSubdirsFlatten(cs[..n], dir, f, o);
      assert Tails(cs, dir, f, o)[..n] == Tails(cs[..n], dir, f, o);
    }
  }

  /** What the kept subdirectories of one listing contribute. */
  lemma WalkSubdirsIff(cs: seq<Entry>, dir: Parts, f: Filters, o: Oracles, x: Parts)
    ensures x in WalkSubdirs(cs, dir, f, o) <==> exists i | 0 <= i < |cs| :: SubdirYields(cs[i], dir, x, f, o)
  {
    WalkSubdirsFlatten(cs, dir, f, o);
    FlattenIff(Tails(cs, dir, f, o), x);
    forall i | 0 <= i < |cs|
      ensures x in Tails(cs, dir, f, o)[i] <==> SubdirYields(cs[i], dir, x, f, o)
    {
    }
  }

  /** A selected file directly in `d` is eligible. */
  lemma OwnFileEligible(d: Entry, dir: Parts, f: Filters, o: Oracles, x: Parts, i: nat)
    requires d.Dir? && i < |d.children|
    requires d.children[i].File? && x == dir + [d.children[i].name] && Included(x, d.children[i], f, o)
    ensures Eligible(d, dir, x, f, o)
  {
    var c := d.children[i];
    assert x[..|dir|] == dir;
    assert x[|dir|..] == [c.name];
    assert HasFile(d, x[|dir|..], c);
  }

  /** A file eligible under a kept child directory of `d` is eligible under `d`. */
  lemma SubdirEligible(d: Entry, dir: Parts, f: Filters, o: Oracles, x: Parts, i: nat)
    requires d.Dir? && i < |d.children|
    requires d.children[i].Dir? && !Pruned(dir + [d.children[i].name], f, o)
    requires Eligible(d.children[i], dir + [d.children[i].name], x, f, o)
    ensures Eligible(d, dir, x, f, o)
  {
    var c := d.children[i];
    var dir' := dir + [c.name];
    var e :| HasFile(c, x[|dir'|..], e) && e.File? && Included(x, e, f, o);
    assert x[..|dir'|] == dir';
    assert x[..|dir|] == x[..|dir'|][..|dir|];
    forall k | |dir| < k < |x|
      ensures !Pruned(x[..k], f, o)
    {
      if k == |dir'| {
        assert x[..k] == dir';
      }
    }
    var q := x[|dir|..];
    assert q[0] == x[|dir|] == dir'[|dir|] == c.name;
    assert q[1..] == x[|dir'|..];
    assert HasFile(d, q, e);
  }

  /** An eligible file is reached through one child of `d`: the file itself, or a kept
      directory under which it is eligible. */
  lemma EligibleChild(d: Entry, dir: Parts, f: Filters, o: Oracles, x: Parts) returns (i: nat)
    requires d.Dir? && Eligible(d, dir, x, f, o)
    ensures i < |d.children|
    ensures |x| == |dir| + 1 ==>
      d.children[i].File? && x == dir + [d.children[i].name] && Included(x, d.children[i], f, o)
    ensures |x| > |dir| + 1 ==>
      d.children[i].Dir? && !Pruned(dir + [d.children[i].name], f, o) &&
      Eligible(d.children[i], dir + [d.children[i].name], x, f, o)
  {
    var cs := d.children;
    var q := x[|dir|..];
    var e :| HasFile(d, q, e) && e.File? && Included(x, e, f, o);
    assert x == x[..|dir|] + q;
    if |q| == 1 {
      i :| 0 <= i < |cs| && cs[i] == e && e.File? && e.name == q[0];
      assert x == dir + [cs[i].name];
    } else {
      i :| 0 <= i < |cs| && cs[i].Dir? && cs[i].name == q[0] && HasFile(cs[i], q[1..], e);
      var dir' := dir + [cs[i].name];
      assert x[..|dir'|] == dir';
      assert !Pruned(x[..|dir'|], f, o);
      assert q[1..] == x[|dir'|..];
      assert NoPrunedBetween(x, |dir'|, f, o);
    }
  }

  lemma {:induction false} WalkDirSound(d: Entry, dir: Parts, f: Filters, o: Oracles, x: Parts)
    requires d.Dir? && x in WalkDir(d, dir, f, o)
    ensures Eligible(d, dir, x, f, o)
    decreases d
  {
    var cs := d.children;
    SelectFilesIff(cs, dir, f, o, x);
    WalkSubdirsIff(cs, dir, f, o, x);
    if x in SelectFiles(cs, dir, f, o) {
      var i :| 0 <= i < |cs| && cs[i].File? && x == dir + [cs[i].name] && Included(x, cs[i], f, o);
      OwnFileEligible(d, dir, f, o, x, i);
    } else {
      var i :| 0 <= i < |cs| && SubdirYields(cs[i], dir, x, f, o);
      WalkDirSound(cs[i], dir + [cs[i].name], f, o, x);
      SubdirEligible(d, dir, f, o, x, i);
    }
  }

  lemma {:induction false} WalkDirComplete(d: Entry, dir: Parts, f: Filters, o: Oracles, x: Parts)
    requires d.Dir? && Eligible(d, dir, x, f, o)
    ensures x in WalkDir(d, dir, f, o)
    decreases d
  {
    var cs := d.children;
    var i := EligibleChild(d, dir, f, o, x);
    if |x| == |dir| + 1 {
      SelectFilesIff(cs, dir, f, o, x);
    } else {
      WalkDirComplete(cs[i], dir + [cs[i].name], f, o, x);
      assert SubdirYields(cs[i], dir, x, f, o);
      WalkSubdirsIff(cs, dir, f, o, x);
    }
  }

  /** Walk membership equals eligibility, for every directory of the tree. */
  lemma WalkDirIff(d: Entry, dir: Parts, f: Filters, o: Oracles, x: Parts)
    requires d.Dir?
    ensures x in WalkDir(d, dir, f, o) <==> Eligible(d, dir, x, f, o)
  {
    if x in WalkDir(d, dir, f, o) {
      WalkDirSound(d, dir, f, o, x);
    }
    if Eligible(d, dir, x, f, o) {
      WalkDirComplete(d, dir, f, o, x);
    }
  }

  /** The selection, characterised: a path is selected exactly when it names a file of the
      tree whose every proper ancestor directory is kept and which the decision chain accepts. */
  lemma SelectionIff(root: Entry, f: Filters, o: Oracles, x: Parts)
    ensures x in Selection(root, f, o) <==>
      root.Dir? && |x| > 0 && NoPrunedBetween(x, 0, f, o) &&
      exists e :: HasFile(root, x, e) && e.File? && Included(x, e, f, o)
  {
    if root.Dir? {
      WalkDirIff(root, [], f, o, x);
      assert x[0..] == x;
    }
  }

  /** A file matched by an exclude pattern or by the gitignore spec is never selected, even
      when a whitelist pattern also matches it. */
  lemma ExcludeAndIgnoreWin(root: Entry, f: Filters, o: Oracles, x: Parts)
    requires AnySearch(f.exclude, JoinSlash(x), o) || IgnoreMatches(f, JoinSlash(x), o)
    ensures x !in Selection(root, f, o)
  {
    SelectionIff(root, f, o, x);
  }

  /** Nothing below a pruned directory is selected. */
  lemma PrunedSubtreeSkipped(root: Entry, f: Filters, o: Oracles, x: Parts, k: nat)
    requires 0 < k < |x| && Pruned(x[..k], f, o)
    ensures x !in Selection(root, f, o)
  {
    SelectionIff(root, f, o, x);
  }

  /** With a non-empty whitelist, a reachable file that survives exclusion and gitignore is
      selected exactly when a whitelist pattern finds its path: its MIME type is not consulted. */
  lemma WhitelistDecides(root: Entry, f: Filters, o: Oracles, x: Parts, e: Entry)
    requires f.whitelist != []
    requires HasFile(root, x, e) && e.File? && NoPrunedBetween(x, 0, f, o)
    requires !AnySearch(f.exclude, JoinSlash(x), o) && !IgnoreMatches(f, JoinSlash(x), o)
    ensures x in Selection(root, f, o) <==> AnySearch(f.whitelist, JoinSlash(x), o)
  {
    SelectionIff(root, f, o, x);
  }

  /** Following names from a well-formed directory reaches at most one entry, along valid names. */
  lemma {:induction false} HasFileUnique(d: Entry, q: Parts, e1: Entry, e2: Entry)
    requires WellFormed(d) && HasFile(d, q, e1) && HasFile(d, q, e2)
    ensures e1 == e2 && ValidParts(q)
    decreases d
  {
    var cs := d.children;
    var i :| 0 <= i < |cs| &&
      ((|q| == 1 && cs[i] == e1 && e1.File? && e1.name == q[0]) ||
       (|q| > 1 && cs[i].Dir? && cs[i].name == q[0] && HasFile(cs[i], q[1..], e1)));
    var j :| 0 <= j < |cs| &&
      ((|q| == 1 && cs[j] == e2 && e2.File? && e2.name == q[0]) ||
       (|q| > 1 && cs[j].Dir? && cs[j].name == q[0] && HasFile(cs[j], q[1..], e2)));
    assert ValidName(q[0]);
    if |q| > 1 {
      HasFileUnique(cs[i], q[1..], e1, e2);
      assert q == [q[0]] + q[1..];
    }
  }

  /** Without a whitelist, a file of a well-formed tree that survives pruning, exclusion and
      gitignore is selected exactly when the default MIME/extension rule accepts it. */
  lemma DefaultDecides(root: Entry, f: Filters, o: Oracles, x: Parts, e: Entry)
    requires WellFormed(root) && f.whitelist == []
    requires HasFile(root, x, e) && e.File? && NoPrunedBetween(x, 0, f, o)
    requires !AnySearch(f.exclude, JoinSlash(x), o) && !IgnoreMatches(f, JoinSlash(x), o)
    ensures x in Selection(root, f, o) <==> DefaultRule(e.name, e.probe)
  {
    SelectionIff(root, f, o, x);
    if x in Selection(root, f, o) {
      var e' :| HasFile(root, x, e') && e'.File? && Included(x, e', f, o);
      HasFileUnique(root, x, e, e');
    }
  }

  /** Every selected path of a well-formed tree is made of valid names. */
  lemma SelectedValid(root: Entry, f: Filters, o: Oracles, x: Parts)
    requires WellFormed(root) && x in Selection(root, f, o)
    ensures ValidParts(x)
  {
    SelectionIff(root, f, o, x);
    var e :| HasFile(root, x, e) && e.File? && Included(x, e, f, o);
    HasFileUnique(root, x, e, e);
  }

  /** A file selected from a listing is not the path of an entry named unlike all of it. */
  lemma SelectedNameDiffers(cs: seq<Entry>, dir: Parts, f: Filters, o: Oracles, c: Entry, x: Parts)
    requires forall i | 0 <= i < |cs| :: cs[i].name != c.name
    requires x in SelectFiles(cs, dir, f, o)
    ensures x != dir + [c.name]
  {
    SelectFilesIff(cs, dir, f, o, x);
    var i :| 0 <= i < |cs| && cs[i].File? && x == dir + [cs[i].name] && Included(x, cs[i], f, o);
    assert x[|dir|] == cs[i].name;
    assert (dir + [c.name])[|dir|] == c.name;
  }

  lemma {:induction false} SelectFilesDistinct(cs: seq<Entry>, dir: Parts, f: Filters, o: Oracles)
    requires forall i, j | 0 <= i < j < |cs| :: cs[i].name != cs[j].name
    ensures Distinct(SelectFiles(cs, dir, f, o))
    decreases |cs|
  {
    if cs != [] {
      var n := |cs| - 1;
      var init := cs[..n];
      var c := cs[n];
      SelectFilesDistinct(init, dir, f, o);
      if c.File? && Included(dir + [c.name], c, f, o) {
        var y := dir + [c.name];
        forall i | 0 <= i < |init| ensures init[i].name != c.name {
          assert init[i] == cs[i];
        }
        forall x | x in SelectFiles(init, dir, f, o)
          ensures x !in [y]
        {
          SelectedNameDiffers(init, dir, f, o, c, x);
        }
        DistinctAppend(SelectFiles(init, dir, f, o), [y]);
      }
    }
  }

  /** Every path the walk of a directory yields lies strictly below that directory. */
  lemma WalkDirUnder(d: Entry, dir: Parts, f: Filters, o: Oracles, x: Parts)
    requires d.Dir? && x in WalkDir(d, dir, f, o)
    ensures |x| > |dir| && x[..|dir|] == dir
  {
    WalkDirIff(d, dir, f, o, x);
  }

  /** The walk below a well-formed directory never yields the same path twice. */
  lemma {:induction false} WalkDirDistinct(d: Entry, dir: Parts, f: Filters, o: Oracles)
    requires d.Dir? && WellFormed(d)
    ensures Distinct(WalkDir(d, dir, f, o))
    decreases d, 1
  {
    var cs := d.children;
    SelectFilesDistinct(cs, dir, f, o);
    WalkSubdirsDistinct(cs, dir, f, o);
    forall x | x in SelectFiles(cs, dir, f, o)
      ensures x !in WalkSubdirs(cs, dir, f, o)
    {
      SelectFilesIff(cs, dir, f, o, x);
      WalkSubdirsIff(cs, dir, f, o, x);
      if x in WalkSubdirs(cs, dir, f, o) {
        var i :| 0 <= i < |cs| && SubdirYields(cs[i], dir, x, f, o);
        WalkDirIff(cs[i], dir + [cs[i].name], f, o, x);
        assert false;
      }
    }
    DistinctAppend(SelectFiles(cs, dir, f, o), WalkSubdirs(cs, dir, f, o));
  }

  /** Walks of two differently named sibling directories yield disjoint paths. */
  lemma SiblingsDisjoint(a: Entry, b: Entry, dir: Parts, f: Filters, o: Oracles, x: Parts)
    requires a.Dir? && b.Dir? && a.name != b.name
    requires x in WalkDir(a, dir + [a.name], f, o)
    ensures x !in WalkDir(b, dir + [b.name], f, o)
  {
    WalkDirUnder(a, dir + [a.name], f, o, x);
    assert x[|dir|] == (dir + [a.name])[|dir|] == a.name;
    if x in WalkDir(b, dir + [b.name], f, o) {
      WalkDirUnder(b, dir + [b.name], f, o, x);
    }
  }

  lemma {:induction false} WalkSubdirsDistinct(cs: seq<Entry>, dir: Parts, f: Filters, o: Oracles)
    requires forall i | 0 <= i < |cs| :: WellFormed(cs[i])
    requires forall i, j | 0 <= i < j < |cs| :: cs[i].name != cs[j].name
    ensures Distinct(WalkSubdirs(cs, dir, f, o))
    decreases cs, 0
  {
    if cs != [] {
      var n := |cs| - 1;
      var init := cs[..n];
      var c := cs[n];
      WalkSubdirsDistinct(init, dir, f, o);
      if c.Dir? && !Pruned(dir + [c.name], f, o) {
        WalkDirDistinct(c, dir + [c.name], f, o);
        forall x | x in WalkSubdirs(init, dir, f, o)
          ensures x !in WalkDir(c, dir + [c.name], f, o)
        {
          WalkSubdirsIff(init, dir, f, o, x);
          var i :| 0 <= i < |init| && SubdirYields(init[i], dir, x, f, o);
          assert init[i] == cs[i];
          SiblingsDisjoint(init[i], c, dir, f, o, x);
        }
        DistinctAppend(WalkSubdirs(init, dir, f, o), WalkDir(c, dir + [c.name], f, o));
      }
    }
  }

  /** The selection of a well-formed tree has no duplicates. */
  lemma SelectionDistinct(root: Entry, f: Filters, o: Oracles)
    requires WellFormed(root)
    ensures Distinct(Selection(root, f, o))
  {
    if root.Dir? {
      WalkDirDistinct(root, [], f, o);
    }
  }

  /** Two filter settings that agree on exclusion and whitelisting, with gitignore disabled in
      both, under matchers that agree on regex search. */
  ghost predicate SameWithoutGitignore(f1: Filters, o1: Oracles, f2: Filters, o2: Oracles) {
    !f1.useGitignore && !f2.useGitignore && f1.exclude == f2.exclude && f1.whitelist == f2.whitelist &&
    o1.search == o2.search
  }

  lemma {:induction false} SelectFilesWithoutGitignore(cs: seq<Entry>, dir: Parts, f1: Filters, o1: Oracles, f2: Filters, o2: Oracles)
    requires SameWithoutGitignore(f1, o1, f2, o2)
    ensures SelectFiles(cs, dir, f1, o1) == SelectFiles(cs, dir, f2, o2)
    decreases |cs|
  {
    if cs != [] {
      SelectFilesWithoutGitignore(cs[..|cs| - 1], dir, f1, o1, f2, o2);
    }
  }

  lemma {:induction false} WalkDirWithoutGitignore(d: Entry, dir: Parts, f1: Filters, o1: Oracles, f2: Filters, o2: Oracles)
    requires d.Dir? && SameWithoutGitignore(f1, o1, f2, o2)
    ensures WalkDir(d, dir, f1, o1) == WalkDir(d, dir, f2, o2)
    decreases d, 1
  {
    SelectFilesWithoutGitignore(d.children, dir, f1, o1, f2, o2);
    WalkSubdirsWithoutGitignore(d.children, dir, f1, o1, f2, o2);
  }

  lemma {:induction false} WalkSubdirsWithoutGitignore(cs: seq<Entry>, dir: Parts, f1: Filters, o1: Oracles, f2: Filters, o2: Oracles)
    requires SameWithoutGitignore(f1, o1, f2, o2)
    ensures WalkSubdirs(cs, dir, f1, o1) == WalkSubdirs(cs, dir, f2, o2)
    decreases cs, 0
  {
    if cs != [] {
      var c := cs[|cs| - 1];
      WalkSubdirsWithoutGitignore(cs[..|cs| - 1], dir, f1, o1, f2, o2);
      if c.Dir? {
        WalkDirWithoutGitignore(c, dir + [c.name], f1, o1, f2, o2);
      }
    }
  }

  /** With `use_gitignore` off, neither the loaded spec nor the pathspec matcher affects the
      selection, order included. */
  lemma GitignoreUnusedWhenDisabled(root: Entry, f1: Filters, o1: Oracles, f2: Filters, o2: Oracles)
    requires SameWithoutGitignore(f1, o1, f2, o2)
    ensures Selection(root, f1, o1) == Selection(root, f2, o2)
  {
    if root.Dir? {
      WalkDirWithoutGitignore(root, [], f1, o1, f2, o2);
    }
  }
}
