/**
 The file tree below the installation prefix: nodes, paths, and the comparison and
 attribute operations of darwinup/File.cpp.
 */
module FileSystem {
  import opened Wrappers

  type Name = s: string | '/' !in s

  /** A path below the prefix, as its component names; the prefix itself is []. */
  type Path = seq<Name>

  /** File contents up to digest equality. */
  type Digest = nat

  datatype Meta = Meta(perm: nat, uid: nat, gid: nat)

  datatype Node =
    | Reg(data: Digest, meta: Meta)
    | Link(data: Digest, meta: Meta)
    | Dir(meta: Meta)

  type Disk = map<Path, Node>

  function Get(disk: Disk, p: Path): Option<Node> {
    if p in disk then Some(disk[p]) else None
  }

  /** a is a directory on the way to p (below the prefix, and not p itself). */
  predicate Ancestor(a: Path, p: Path) {
    0 < |a| < |p| && a == p[..|a|]
  }

  /** What a file system guarantees: everything on disk sits inside directories. */
  ghost predicate TreeClosed(disk: Disk) {
    && [] !in disk
    && forall a, p :: p in disk && Ancestor(a, p) ==> a in disk && disk[a].Dir?
  }

  // ---------------------------------------------------------------- File::compare

  datatype Flags = Flags(uid: bool, gid: bool, mode: bool, kind: bool, perm: bool, data: bool) {
    predicate Identical() {
      !uid && !gid && !mode && !kind && !perm && !data
    }
  }

  const S_IFDIR := 0x4000
  const S_IFREG := 0x8000
  const S_IFLNK := 0xA000

  /** The S_IFMT bits; a NoEntry placeholder has mode 0. */
  function FormatOf(n: Option<Node>): nat {
    match n
    case None => 0
    case Some(Dir(_)) => S_IFDIR
    case Some(Reg(_, _)) => S_IFREG
    case Some(Link(_, _)) => S_IFLNK
  }

  /** Mode, uid and gid as File stores them; a NoEntry placeholder has all zero. */
  function AttrsOf(n: Option<Node>): Meta {
    match n
    case None => Meta(0, 0, 0)
    case Some(m) => m.meta
  }

  /** Directories and placeholders have no digest. */
  function DigestOf(n: Option<Node>): Option<Digest> {
    match n
    case Some(Reg(d, _)) => Some(d)
    case Some(Link(d, _)) => Some(d)
    case _ => None
  }

  function Compare(a: Option<Node>, b: Option<Node>): Flags {
    var x, y := AttrsOf(a), AttrsOf(b);
    Flags(
      x.uid != y.uid,
      x.gid != y.gid,
      FormatOf(a) != FormatOf(b) || x.perm != y.perm,
      FormatOf(a) != FormatOf(b),
      x.perm != y.perm,
      DigestOf(a) != DigestOf(b))
  }

  /** FILE_INFO_IDENTICAL loses nothing: it means equal kind, attributes and contents. */
  lemma CompareIdentical(a: Option<Node>, b: Option<Node>)
    ensures Compare(a, b).Identical() <==> a == b
  {
    if Compare(a, b).Identical() {
      assert FormatOf(a) == FormatOf(b);
      assert AttrsOf(a).perm == AttrsOf(b).perm;
    }
  }

  /** The mode differs if kind or permissions do, and an absent file differs in kind from any other. */
  lemma CompareKinds(a: Option<Node>, b: Option<Node>)
    ensures Compare(a, b).mode <==> Compare(a, b).kind || Compare(a, b).perm
    ensures Compare(a, b).kind <==>
      (a.Some? || b.Some?) && (a.None? || b.None? || !SameKind(a.value, b.value))
  {
  }

  predicate SameKind(a: Node, b: Node) {
    (a.Reg? <==> b.Reg?) && (a.Link? <==> b.Link?)
  }

  /** install_info of a file recorded as `wanted`, over what is there now: chown and
      chmod, but only lchown when the record is a symbolic link. */
  function SetInfo(current: Node, wanted: Node): Node {
    if wanted.Link? then
      current.(meta := current.meta.(uid := wanted.meta.uid, gid := wanted.meta.gid))
    else
      current.(meta := wanted.meta)
  }
}
