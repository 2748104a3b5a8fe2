/**
 * Filesystem paths as sequences of components. Concatenation `a + b`
 * stands for pathlib's `a / b`: a destination file is `dest + rel`,
 * a source file `source + rel`.
 */
module Paths {

  type Path = seq<string>

  /** pathlib's `p.parent`: the path without its last component; the root is its own parent. */
  function Parent(p: Path): (q: Path)
    ensures |p| > 0 ==> p == q + [p[|p| - 1]]
    ensures |p| == 0 ==> q == []
  {
    if |p| == 0 then [] else p[..|p| - 1]
  }

  /** `p` together with every ancestor of it: what `mkdir(parents=True)` leaves in place. */
  function Ancestors(p: Path): (s: set<Path>)
    ensures p in s && [] in s
    ensures forall q :: q in s ==> |q| <= |p| && q == p[..|q|]
  {
    assert p == p[..|p|] && [] == p[..0];
    set i | 0 <= i <= |p| :: p[..i]
  }

  /** Joining the same relative path onto two roots gives the same path only for the same root. */
  lemma JoinInjective(a: Path, b: Path, rel: Path)
    requires a + rel == b + rel
    ensures a == b
  {
    assert |a| == |b|;
    assert a == (a + rel)[..|a|];
    assert b == (b + rel)[..|b|];
  }
}
