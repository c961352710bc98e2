/** Lexical pathlib: a path is its anchor flag and its parts. `str(p)` and `p.as_posix()`
    join the parts with '/'; `Path(s)` splits on '/' and drops empty and "." parts. */
module Paths {
  import opened Wrappers

  /** The parts of a relative path, as `Path.parts` gives them. */
  type Parts = seq<string>

  datatype PurePath = PurePath(absolute: bool, parts: Parts)

  /** A part that `Path(...)` keeps as it is: non-empty, not ".", without a separator. */
  predicate ValidName(n: string) {
    n != "" && n != "." && '/' !in n
  }

  predicate ValidParts(ps: Parts) {
    forall i | 0 <= i < |ps| :: ValidName(ps[i])
  }

  /** `"/".join(ps)`, which is `str()` of a relative path with these parts. */
  function JoinSlash(ps: Parts): string {
    if ps == [] then ""
    else if |ps| == 1 then ps[0]
    else ps[0] + "/" + JoinSlash(ps[1..])
  }

  /** `s.split("/")` */
  function SplitSlash(s: string): (r: seq<string>)
    ensures |r| >= 1
  {
    if s == [] then [""]
    else if s[0] == '/' then [""] + SplitSlash(s[1..])
    else
      var rest := SplitSlash(s[1..]);
      [[s[0]] + rest[0]] + rest[1..]
  }

  /** The parts `Path(s)` keeps out of the pieces of `s.split("/")`. */
  function KeptParts(pieces: seq<string>): Parts {
    if pieces == [] then []
    else (if pieces[0] == "" || pieces[0] == "." then [] else [pieces[0]]) + KeptParts(pieces[1..])
  }

  /** `Path(s)` */
  function ParsePath(s: string): PurePath {
    PurePath(s != [] && s[0] == '/', KeptParts(SplitSlash(s)))
  }

  /** `p.as_posix()` */
  function AsPosix(p: PurePath): string {
    if p.absolute then "/" + JoinSlash(p.parts)
    else if p.parts == [] then "."
    else JoinSlash(p.parts)
  }

  /** The absolute path string `str(Path(...).resolve())` of a resolved path with these parts. */
  function AbsStr(ps: Parts): string {
    AsPosix(PurePath(true, ps))
  }

  /** `p.relative_to(base)`, None where pathlib raises ValueError. */
  function RelativeTo(p: PurePath, base: PurePath): (r: Option<PurePath>)
    ensures r.Some? <==> p.absolute == base.absolute && base.parts <= p.parts
    ensures r.Some? ==> !r.value.absolute && base.parts + r.value.parts == p.parts
  {
    if p.absolute == base.absolute && base.parts <= p.parts
    then Some(PurePath(false, p.parts[|base.parts|..]))
    else None
  }

  lemma {:induction false} SplitNoSlash(a: string)
    requires '/' !in a
    ensures SplitSlash(a) == [a]
  {
    if a != [] {
      assert a[0] in a;
      SplitNoSlash(a[1..]);
      assert a == [a[0]] + a[1..];
    }
  }

  /** A leading run without separators joins the first piece of whatever follows. */
  lemma {:induction false} SplitPrefix(a: string, t: string)
    requires '/' !in a
    ensures SplitSlash(a + t) == [a + SplitSlash(t)[0]] + SplitSlash(t)[1..]
  {
    var r := SplitSlash(t);
    if a == [] {
      assert a + t == t;
      assert a + r[0] == r[0];
      assert r == [r[0]] + r[1..];
    } else {
      assert a[0] in a && (a + t)[0] == a[0];
      assert (a + t)[1..] == a[1..] + t;
      SplitPrefix(a[1..], t);
      assert [a[0]] + (a[1..] + r[0]) == a + r[0];
    }
  }

  /** `("/".join(ps)).split("/") == ps` for a non-empty list of separator-free parts. */
  lemma {:induction false} SplitJoin(ps: Parts)
    requires ps != []
    requires forall i | 0 <= i < |ps| :: '/' !in ps[i]
    ensures SplitSlash(JoinSlash(ps)) == ps
  {
    if |ps| == 1 {
      SplitNoSlash(ps[0]);
    } else {
      var tail := JoinSlash(ps[1..]);
      SplitJoin(ps[1..]);
      assert JoinSlash(ps) == ps[0] + ("/" + tail);
      SplitPrefix(ps[0], "/" + tail);
      assert ("/" + tail)[1..] == tail;
      assert SplitSlash("/" + tail) == [""] + ps[1..];
      assert ps[0] + "" == ps[0];
      assert ps == [ps[0]] + ps[1..];
    }
  }

  lemma {:induction false} KeptPartsOfValid(ps: Parts)
    requires ValidParts(ps)
    ensures KeptParts(ps) == ps
  {
    if ps != [] {
      KeptPartsOfValid(ps[1..]);
      assert ps == [ps[0]] + ps[1..];
    }
  }

  /** Parsing the absolute string of valid parts gives those parts back. */
  lemma ParseAbsStr(ps: Parts)
    requires ValidParts(ps)
    ensures ParsePath(AbsStr(ps)) == PurePath(true, ps)
  {
    var s := AbsStr(ps);
    assert s[1..] == JoinSlash(ps);
    assert SplitSlash(s) == [""] + SplitSlash(JoinSlash(ps));
    if ps == [] {
    } else {
      SplitJoin(ps);
      KeptPartsOfValid(ps);
    }
  }

  /** Distinct valid part lists have distinct absolute strings. */
  lemma AbsStrInjective(a: Parts, b: Parts)
    requires ValidParts(a) && ValidParts(b)
    requires AbsStr(a) == AbsStr(b)
    ensures a == b
  {
    ParseAbsStr(a);
    ParseAbsStr(b);
  }
}
