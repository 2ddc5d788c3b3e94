/** The path column of the files table, and the order that ORDER BY gives it. */
module PathOrder {
  import opened FileSystem
  import opened TextOrder

  /** The path column: "/usr/lib". */
  function PathText(p: Path): string {
    if p == [] then "" else PathText(p[..|p| - 1]) + "/" + p[|p| - 1]
  }

  lemma {:induction false} AncestorTextShorter(q: Path, p: Path)
    requires q != p && |q| <= |p| && q == p[..|q|]
    ensures PathText(q) < PathText(p)
  {
    var up := p[..|p| - 1];
    if q == up {
    } else {
      assert q == up[..|q|];
      AncestorTextShorter(q, up);
    }
  }

  /** In descending path order everything below a directory comes before it. */
  lemma AncestorsFirst(q: Path, p: Path)
    requires Ancestor(q, p)
    ensures !Leq(PathText(p), PathText(q))
  {
    AncestorTextShorter(q, p);
    PrefixIsLeq(PathText(q), PathText(p));
    if Leq(PathText(p), PathText(q)) {
      LeqAntisymmetric(PathText(p), PathText(q));
    }
  }

  lemma SlashInside(a: string, x: string, b: string, y: string)
    requires a + "/" + x == b + "/" + y && |a| < |b|
    ensures '/' in x
  {
    assert (b + "/" + y)[|b|] == '/';
    assert (a + "/" + x)[|b|] == x[|b| - |a| - 1];
  }

  lemma LastSlash(a: string, x: Name, b: string, y: Name)
    requires a + "/" + x == b + "/" + y && |a| <= |b|
    ensures a == b && x == y
  {
    if |a| < |b| {
      SlashInside(a, x, b, y);
    }
    var t := a + "/" + x;
    assert a == t[..|a|] == b;
    assert x == t[|a| + 1..] == y;
  }

  /** The column names its path: components hold no slash. */
  lemma {:induction false} TextNamesPath(p: Path, q: Path)
    requires PathText(p) == PathText(q)
    ensures p == q
  {
    if p == [] || q == [] {
    } else {
      var up, over := p[..|p| - 1], q[..|q| - 1];
      if |PathText(up)| <= |PathText(over)| {
        LastSlash(PathText(up), p[|p| - 1], PathText(over), q[|q| - 1]);
      } else {
        LastSlash(PathText(over), q[|q| - 1], PathText(up), p[|p| - 1]);
      }
      TextNamesPath(up, over);
      assert p == up + [p[|p| - 1]] && q == over + [q[|q| - 1]];
    }
  }

  /** p is the first of the paths in column order, and so the last in descending order. */
  ghost predicate IsFirst(p: Path, paths: set<Path>) {
    p in paths && forall q :: q in paths ==> Leq(PathText(p), PathText(q))
  }

  lemma OneFirst(p: Path, q: Path, paths: set<Path>)
    requires IsFirst(p, paths) && IsFirst(q, paths)
    ensures p == q
  {
    LeqAntisymmetric(PathText(p), PathText(q));
    TextNamesPath(p, q);
  }

  /** A directory comes before its contents, so nothing in the set is above the first path. */
  lemma NothingAboveFirst(p: Path, q: Path, paths: set<Path>)
    requires IsFirst(p, paths) && Ancestor(q, p)
    ensures q !in paths
  {
    AncestorsFirst(q, p);
  }
}
