/** `Url.pathConcat` (url.js:180-198): merging a relative path's segments
    into a base path. Both are sequences of segments; the base may be
    missing. The source shifts the caller's path array in place; here the
    merge is a pure function of its two arguments. */
module PathMerge {

  import opened Wrappers
  import opened Text

  type Path = seq<Str>

  /** `pop()`: the last segment goes, and popping nothing is harmless. */
  function DropLast(p: Path): (r: Path)
    ensures |r| == if p == [] then 0 else |p| - 1
    ensures r == p[..|r|]
  {
    if p == [] then [] else p[..|p| - 1]
  }

  /** The segment ".". */
  predicate IsDot(seg: Str) {
    seg == [DOT]
  }

  /** The merge after the leading "." has been dealt with: a lone empty
      segment keeps the base, a longer path that starts with an empty
      segment replaces it, and anything else replaces the base's last
      segment. */
  function Merge(b: Path, p: Path): (r: Path)
  {
    if |p| == 1 && p[0] == [] then b
    else if |p| > 1 && p[0] == [] then p[1..]
    else DropLast(b) + p
  }

  function PathConcat(base: Option<Path>, path: Path): (r: Path)
    ensures path == [[]] ==> r == (if base.Some? then base.value else [])
    ensures |path| > 1 && path[0] == [] ==> r == path[1..]
    ensures |path| > 0 && path[0] != [] && !IsDot(path[0]) ==>
      r == DropLast(if base.Some? then base.value else []) + path
    ensures path == [] ==> r == DropLast(if base.Some? then base.value else [])
    ensures |path| > 0 && IsDot(path[0]) ==>
      r == Merge(DropLast(if base.Some? then base.value else []), path[1..])
  {
    var b := if base.Some? then base.value else [];
    if |path| > 0 && IsDot(path[0]) then Merge(DropLast(b), path[1..])
    else Merge(b, path)
  }

  /** The base is only read, never altered: the result depends on its
      segments alone, and a missing base acts as the empty path. */
  lemma PathConcatMissingBase(path: Path)
    ensures PathConcat(None, path) == PathConcat(Some([]), path)
    ensures |path| > 1 && path[0] == [] ==> forall b :: PathConcat(Some(b), path) == PathConcat(None, path)
  {
  }

  /** Whatever the inputs, the result is a prefix of the base followed by
      a suffix of the path: at most two segments are cut from the start of
      the path, and the base either loses at most two segments from its
      end or is dropped entirely. */
  lemma PathConcatSplices(base: Option<Path>, path: Path) returns (k: nat, j: nat)
    ensures var b := if base.Some? then base.value else [];
      k <= |b| && (k == 0 || |b| - k <= 2) && j <= |path| && j <= 2 &&
      PathConcat(base, path) == b[..k] + path[j..]
  {
    var b := if base.Some? then base.value else [];
    var dot := |path| > 0 && IsDot(path[0]);
    var b1 := if dot then DropLast(b) else b;
    var j1 := if dot then 1 else 0;
    var p := path[j1..];
    assert b1 == b[..|b1|];
    assert PathConcat(base, path) == Merge(b1, p);
    if |p| == 1 && p[0] == [] {
      k, j := |b1|, |path|;
      assert path[j..] == [];
    } else if |p| > 1 && p[0] == [] {
      k, j := 0, j1 + 1;
      assert p[1..] == path[j..];
    } else {
      k, j := |DropLast(b1)|, j1;
      assert DropLast(b1) == b[..k];
    }
  }

  /** A leading "." with a two-segment base drops both the "." and the
      base's last segment, and then the lone remaining segment of the base
      as well: nothing is left. */
  lemma DotExample()
    ensures PathConcat(Some([[0x61], [0x62]]), [[DOT]]) == []
  {
  }

  /** A lone empty segment keeps the whole base. */
  lemma EmptySegmentExample()
    ensures PathConcat(Some([[0x61], [0x62]]), [[]]) == [[0x61], [0x62]]
  {
  }
}
