/**
 * Manifest naming and filtering (src/transfer.py, class Manifest).
 *
 * A path is a list of normalised components plus a flag telling whether it
 * is absolute.  `Path(false, [])` is the empty string, which Python treats as
 * false exactly like `None`: an unset `relpath` or `arcpath` is written that way.
 */
module Manifests {
  import opened Wrappers

  type Component = string

  datatype Path = Path(absolute: bool, parts: seq<Component>)

  /** The empty path: what an unset `relpath` / `arcpath` is. */
  const Unset := Path(false, [])

  const CurDir: Component := "."
  const ParDir: Component := ".."

  /** `os.path.join(a, b)` on two paths: an absolute `b` discards `a`. */
  function Join(a: Path, b: Path): (r: Path)
    ensures b.absolute ==> r == b
    ensures !b.absolute ==> (r.absolute == a.absolute && a.parts <= r.parts
                             && |r.parts| == |a.parts| + |b.parts| && r.parts[|a.parts|..] == b.parts)
  {
    if b.absolute then b else Path(a.absolute, a.parts + b.parts)
  }

  /** `os.path.abspath` for a normalised path, `cwd` being the absolute working directory. */
  function AbsParts(p: Path, cwd: seq<Component>): seq<Component>
  {
    if p.absolute then p.parts else cwd + p.parts
  }

  /** Length of the longest common prefix of two component lists. */
  function CommonPrefixLen(a: seq<Component>, b: seq<Component>): (k: nat)
    ensures k <= |a| && k <= |b|
    ensures a[..k] == b[..k]
    ensures k == |a| || k == |b| || a[k] != b[k]
  {
    if a == [] || b == [] || a[0] != b[0] then 0
    else
      var k' := CommonPrefixLen(a[1..], b[1..]);
      assert a[1..][..k'] == b[1..][..k'];
      assert a[..k' + 1] == [a[0]] + a[1..][..k'];
      assert b[..k' + 1] == [b[0]] + b[1..][..k'];
      k' + 1
  }

  function Ups(n: nat): (r: seq<Component>)
    ensures |r| == n && forall i :: 0 <= i < n ==> r[i] == ParDir
  {
    if n == 0 then [] else [ParDir] + Ups(n - 1)
  }

  /**
   * The components of `os.path.relpath` for absolute forms `s` (the start) and
   * `p` (the path): climb out of `s` with ".." up to their common prefix, then
   * descend into the rest of `p`; an empty result is ".".
   */
  function RelParts(s: seq<Component>, p: seq<Component>): (r: seq<Component>)
    ensures |r| > 0
  {
    var i := CommonPrefixLen(s, p);
    var rel := Ups(|s| - i) + p[i..];
    if rel == [] then [CurDir] else rel
  }

  /** `os.path.relpath(path, start)`: always a relative, non-empty path. */
  function RelPath(path: Path, start: Path, cwd: seq<Component>): (r: Path)
    ensures !r.absolute && |r.parts| > 0
  {
    Path(false, RelParts(AbsParts(start, cwd), AbsParts(path, cwd)))
  }

  /** Below its start, relpath strips exactly the start's components. */
  lemma RelPartsOfPrefix(s: seq<Component>, p: seq<Component>)
    requires s <= p
    ensures RelParts(s, p) == if |s| == |p| then [CurDir] else p[|s|..]
  {
    var k := CommonPrefixLen(s, p);
    assert k == |s|;
    assert Ups(0) == [];
    assert [] + p[k..] == p[k..];
  }

  /** Joining the start and the relative components gives the path back. */
  lemma RelPartsRoundTrip(s: seq<Component>, p: seq<Component>)
    requires s < p
    ensures s + RelParts(s, p) == p
  {
    RelPartsOfPrefix(s, p);
    assert s == p[..|s|];
    assert p[..|s|] + p[|s|..] == p;
  }

  /**
   * Manifest state: the root, the optional filter callback and the two optional
   * rewriting paths.  `path` is the root the walk starts from; the walk itself
   * is not part of this value, it is given to `Entries` as a sequence of paths,
   * so no operation here reads `path`.
   */
  datatype Manifest = Manifest(path: Path, callback: Option<Path -> bool>, arcpath: Path, relpath: Path)

  /** `Manifest.arcname`: strip `relpath` first, then prepend `arcpath`. */
  function Arcname(m: Manifest, cwd: seq<Component>, path: Path): (r: Path)
    ensures m.relpath == Unset && m.arcpath == Unset ==> r == path
    ensures m.relpath != Unset ==> r.absolute == (m.arcpath != Unset && m.arcpath.absolute)
  {
    var stripped := if m.relpath != Unset then RelPath(path, m.relpath, cwd) else path;
    if m.arcpath != Unset then Join(m.arcpath, stripped) else stripped
  }

  /** Whether `__iter__` keeps a walked path: no callback, or the callback accepts it. */
  predicate Keep(m: Manifest, path: Path)
  {
    m.callback.None? || m.callback.value(path)
  }

  /** `Manifest.__iter__` over the paths the walk produced, in walk order. */
  function Entries(m: Manifest, cwd: seq<Component>, walk: seq<Path>): (r: seq<(Path, Path)>)
    ensures |r| <= |walk|
  {
    if walk == [] then []
    else
      var rest := Entries(m, cwd, walk[1..]);
      if Keep(m, walk[0]) then [(walk[0], Arcname(m, cwd, walk[0]))] + rest else rest
  }

  /** Every yielded pair is a walked path the callback accepts, with its archive name. */
  lemma {:induction false} EntriesSound(m: Manifest, cwd: seq<Component>, walk: seq<Path>)
    ensures forall e :: e in Entries(m, cwd, walk) ==> e.0 in walk && Keep(m, e.0) && e.1 == Arcname(m, cwd, e.0)
  {
    if walk != [] {
      EntriesSound(m, cwd, walk[1..]);
    }
  }

  /** Every walked path the callback accepts is yielded with its archive name. */
  lemma {:induction false} EntriesComplete(m: Manifest, cwd: seq<Component>, walk: seq<Path>)
    ensures forall p :: p in walk && Keep(m, p) ==> (p, Arcname(m, cwd, p)) in Entries(m, cwd, walk)
  {
    if walk != [] {
      EntriesComplete(m, cwd, walk[1..]);
      forall p | p in walk && Keep(m, p)
        ensures (p, Arcname(m, cwd, p)) in Entries(m, cwd, walk)
      {
        if p != walk[0] {
          assert p in walk[1..];
        }
      }
    }
  }

  /** When `start` (made absolute) is a prefix of `path`, relpath strips exactly that prefix. */
  lemma RelPathStripsPrefix(path: Path, start: Path, cwd: seq<Component>)
    requires AbsParts(start, cwd) <= AbsParts(path, cwd)
    ensures var s, p := AbsParts(start, cwd), AbsParts(path, cwd);
            RelPath(path, start, cwd).parts == if |s| == |p| then [CurDir] else p[|s|..]
  {
    RelPartsOfPrefix(AbsParts(start, cwd), AbsParts(path, cwd));
  }

  /** Round trip: `join(abspath(start), relpath(path, start)) == abspath(path)` below `start`. */
  lemma RelPathRoundTrip(path: Path, start: Path, cwd: seq<Component>)
    requires AbsParts(start, cwd) < AbsParts(path, cwd)
    ensures AbsParts(start, cwd) + RelPath(path, start, cwd).parts == AbsParts(path, cwd)
  {
    RelPartsRoundTrip(AbsParts(start, cwd), AbsParts(path, cwd));
  }

  /** `arcname` with both options set: strip the `relpath` base, then prepend `arcpath`. */
  lemma ArcnameStripsThenPrefixes(m: Manifest, cwd: seq<Component>, path: Path)
    requires m.relpath != Unset && m.arcpath != Unset
    requires AbsParts(m.relpath, cwd) < AbsParts(path, cwd)
    ensures Arcname(m, cwd, path)
         == Path(m.arcpath.absolute, m.arcpath.parts + AbsParts(path, cwd)[|AbsParts(m.relpath, cwd)|..])
  {
    RelPathStripsPrefix(path, m.relpath, cwd);
  }

  /** A path of no ".." components. */
  predicate NoParDir(parts: seq<Component>)
  {
    forall i :: 0 <= i < |parts| ==> parts[i] != ParDir
  }

  /** A path below a start without ".." has a relpath without "..". */
  lemma RelPartsNoParDir(s: seq<Component>, p: seq<Component>)
    requires s <= p && NoParDir(p)
    ensures NoParDir(RelParts(s, p))
  {
    RelPartsOfPrefix(s, p);
    if |s| < |p| {
      var rel := p[|s|..];
      forall i | 0 <= i < |rel| ensures rel[i] != ParDir {
        assert rel[i] == p[|s| + i];
      }
    }
  }

  /** Concatenating two lists without ".." gives one without "..". */
  lemma NoParDirAppend(a: seq<Component>, b: seq<Component>)
    requires NoParDir(a) && NoParDir(b)
    ensures NoParDir(a + b)
  {
    forall i | 0 <= i < |a + b| ensures (a + b)[i] != ParDir {
      if i < |a| {
        assert (a + b)[i] == a[i];
      } else {
        assert (a + b)[i] == b[i - |a|];
      }
    }
  }

  /**
   * Archive names never escape the archive root: below the `relpath` base, with
   * a relative (or unset) `arcpath` and no ".." in the inputs, the name is
   * relative and has no ".." component.
   */
  lemma ArcnameStaysInside(m: Manifest, cwd: seq<Component>, path: Path)
    requires m.relpath != Unset && !m.arcpath.absolute
    requires AbsParts(m.relpath, cwd) <= AbsParts(path, cwd)
    requires NoParDir(AbsParts(path, cwd)) && NoParDir(m.arcpath.parts)
    ensures var r := Arcname(m, cwd, path); !r.absolute && NoParDir(r.parts)
  {
    var rel := RelPath(path, m.relpath, cwd);
    RelPartsNoParDir(AbsParts(m.relpath, cwd), AbsParts(path, cwd));
    if m.arcpath != Unset {
      NoParDirAppend(m.arcpath.parts, rel.parts);
      assert Arcname(m, cwd, path) == Path(m.arcpath.absolute, m.arcpath.parts + rel.parts);
    }
  }

  /**
   * Outside the conditions of `ArcnameStaysInside` a name can leave the archive
   * root: without a `relpath` an absolute walked path stays absolute, and a path
   * outside the `relpath` base climbs out of it with "..".
   */
  lemma ArcnameCanEscape(root: Path, cwd: seq<Component>)
    ensures Arcname(Manifest(root, None, Unset, Unset), cwd, Path(true, ["etc"])) == Path(true, ["etc"])
    ensures Arcname(Manifest(root, None, Unset, Path(true, ["a"])), cwd, Path(true, ["b"])) == Path(false, [ParDir, "b"])
  {
    assert ["a"][0] != ["b"][0];
    assert CommonPrefixLen(["a"], ["b"]) == 0;
    assert Ups(1) == [ParDir];
    assert RelParts(["a"], ["b"]) == [ParDir] + ["b"];
  }

  /** Iteration is compositional: a rejected path is skipped without affecting later ones. */
  lemma {:induction false} EntriesAppend(m: Manifest, cwd: seq<Component>, a: seq<Path>, b: seq<Path>)
    ensures Entries(m, cwd, a + b) == Entries(m, cwd, a) + Entries(m, cwd, b)
  {
    if a == [] {
      assert a + b == b;
    } else {
      assert (a + b)[1..] == a[1..] + b;
      EntriesAppend(m, cwd, a[1..], b);
    }
  }

  /** A path the callback rejects contributes nothing: its neighbours are kept as before. */
  lemma EntriesSkipRejected(m: Manifest, cwd: seq<Component>, a: seq<Path>, p: Path, b: seq<Path>)
    requires !Keep(m, p)
    ensures Entries(m, cwd, a + [p] + b) == Entries(m, cwd, a) + Entries(m, cwd, b)
  {
    EntriesAppend(m, cwd, a + [p], b);
    EntriesAppend(m, cwd, a, [p]);
  }

  /** Without a callback every walked path is yielded, in walk order, with its archive name. */
  lemma {:induction false} EntriesWithoutCallback(m: Manifest, cwd: seq<Component>, walk: seq<Path>)
    requires m.callback.None?
    ensures var r := Entries(m, cwd, walk);
            |r| == |walk| && forall i :: 0 <= i < |walk| ==> r[i] == (walk[i], Arcname(m, cwd, walk[i]))
  {
    if walk != [] {
      var rest := Entries(m, cwd, walk[1..]);
      EntriesWithoutCallback(m, cwd, walk[1..]);
      assert Entries(m, cwd, walk) == [(walk[0], Arcname(m, cwd, walk[0]))] + rest;
      forall i | 1 <= i < |walk|
        ensures Entries(m, cwd, walk)[i] == (walk[i], Arcname(m, cwd, walk[i]))
      {
        assert Entries(m, cwd, walk)[i] == rest[i - 1] && walk[i] == walk[1..][i - 1];
      }
    }
  }
}
