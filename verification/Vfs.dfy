/** Mount lookup and path resolution of kernel/fs/src/vfs.rs over an arbitrary inode graph. */
module Vfs {
  import opened Prelude
  import opened Path

  datatype FsError =
    | NotFound | NotADirectory | IsADirectory | AlreadyExists | BadFd | PermissionDenied | IoError
    | InvalidArgument | NotSupported | SymlinkLoop | Interrupted | BrokenPipe | Fault

  datatype InodeType = File | Directory | CharDevice | Symlink | BlockDevice | Socket

  type Inode = nat

  /** What the mounted filesystems answer. Nothing is assumed of it: links may form cycles. */
  datatype Graph = Graph(
    lookup: (Inode, string) -> Result<Inode, FsError>,
    kind: Inode -> InodeType,
    readLink: Inode -> Result<string, FsError>
  )

  /** Mount path to root inode. */
  type Mounts = map<string, Inode>

  const MAX_SYMLINK_DEPTH := 8

  // ---------------------------------------------------------------------------
  // Specification
  // ---------------------------------------------------------------------------

  /** The longest mount point that is a prefix of an absolute path of length at most `n`. */
  ghost function BestUpTo(mps: set<string>, path: string, n: nat): (r: Option<string>)
    requires IsAbsolute(path) && n <= |path|
  {
    if path[..n] in mps && Matches(path, path[..n]) then Some(path[..n])
    else if n == 0 then None
    else BestUpTo(mps, path, n - 1)
  }

  lemma {:induction false} BestUpToIsLongest(mps: set<string>, path: string, n: nat)
    requires IsAbsolute(path) && n <= |path|
    ensures IsLongest(path, (set mp | mp in mps && |mp| <= n), BestUpTo(mps, path, n))
  {
    forall mp | mp in mps && |mp| <= n && Matches(path, mp)
      ensures mp == path[..|mp|]
    {
      MatchIsPrefix(path, mp);
    }
    if n > 0 {
      BestUpToIsLongest(mps, path, n - 1);
    }
  }

  ghost function Best(mps: set<string>, path: string): (r: Option<string>)
    requires IsAbsolute(path)
    ensures IsLongest(path, mps, r)
    ensures r.Some? ==> |r.value| <= |path|
  {
    BestUpToIsLongest(mps, path, |path|);
    assert forall mp :: mp in mps && Matches(path, mp) ==> |mp| <= |path|;
    BestUpTo(mps, path, |path|)
  }

  /** The root to start from and what is left to walk. */
  ghost function FindMountSpec(mounts: Mounts, path: string): Result<(Inode, string), FsError> {
    if !IsAbsolute(path) then Err(InvalidArgument)
    else
      match Best(mounts.Keys, path)
      case None => Err(NotFound)
      case Some(mp) => Ok((mounts[mp], StripMountPrefix(path, mp)))
  }

  /** Resolution by definition: measure the depth left, then the components left. */
  ghost function Resolve(g: Graph, mounts: Mounts, path: string, depth: nat): Result<Inode, FsError>
    decreases Max(0, MAX_SYMLINK_DEPTH + 1 - depth), 1, 0
  {
    if depth > MAX_SYMLINK_DEPTH then Err(SymlinkLoop)
    else
      match FindMountSpec(mounts, path)
      case Err(e) => Err(e)
      case Ok((root, rest)) => Walk(g, mounts, root, Components(rest), depth)
  }

  ghost function Walk(g: Graph, mounts: Mounts, from: Inode, names: seq<string>, depth: nat): Result<Inode, FsError>
    requires depth <= MAX_SYMLINK_DEPTH
    decreases MAX_SYMLINK_DEPTH + 1 - depth, 0, |names|
  {
    if names == [] then Ok(from)
    else
      match Step(g, mounts, from, names[0], depth)
      case Err(e) => Err(e)
      case Ok(next) => Walk(g, mounts, next, names[1..], depth)
  }

  /** One component: look it up and, if it is a symbolic link, resolve its target one level deeper. */
  ghost function Step(g: Graph, mounts: Mounts, from: Inode, name: string, depth: nat): Result<Inode, FsError>
    requires depth <= MAX_SYMLINK_DEPTH
    decreases MAX_SYMLINK_DEPTH + 1 - depth, 0, 0
  {
    match g.lookup(from, name)
    case Err(e) => Err(e)
    case Ok(next) =>
      if g.kind(next) != Symlink then Ok(next)
      else
        match g.readLink(next)
        case Err(e) => Err(e)
        case Ok(target) => Resolve(g, mounts, target, depth + 1)
  }

  // ---------------------------------------------------------------------------
  // The code
  // ---------------------------------------------------------------------------

  /** The mount points in some order. */
  method KeysOf(mounts: Mounts) returns (keys: seq<string>)
    ensures ToSet(keys) == mounts.Keys
  {
    keys := [];
    var left := mounts.Keys;
    while left != {}
      invariant left <= mounts.Keys && ToSet(keys) == mounts.Keys - left
      decreases |left|
    {
      var mp :| mp in left;
      ghost var before := keys;
      left, keys := left - {mp}, keys + [mp];
      assert ToSet(keys) == ToSet(before) + {mp};
    }
  }

  /** `find_mount` on the table `mounts`. */
  method FindMount(mounts: Mounts, absPath: string) returns (r: Result<(Inode, string), FsError>)
    ensures r == FindMountSpec(mounts, absPath)
  {
    if !IsAbsolute(absPath) {
      return Err(InvalidArgument);
    }
    var keys := KeysOf(mounts);
    var best := LongestPrefixMatch(absPath, keys);
    LongestIsUnique(absPath, mounts.Keys, best, Best(mounts.Keys, absPath));
    if best == None {
      return Err(NotFound);
    }
    return Ok((mounts[best.value], StripMountPrefix(absPath, best.value)));
  }

  class MountTable {
    var mounts: Mounts

    constructor ()
      ensures mounts == map[]
    {
      mounts := map[];
    }

    /** Mounting replaces what was mounted at the same path; no other mount point changes. */
    method Mount(path: string, root: Inode)
      modifies this
      ensures mounts == old(mounts)[path := root]
    {
      mounts := mounts[path := root];
    }

    /** `Vfs::resolve_with_depth`. */
    method ResolveWithDepth(g: Graph, absPath: string, depth: nat) returns (r: Result<Inode, FsError>)
      ensures r == Resolve(g, mounts, absPath, depth)
      decreases Max(0, MAX_SYMLINK_DEPTH + 1 - depth), 1
    {
      if depth > MAX_SYMLINK_DEPTH {
        return Err(SymlinkLoop);
      }
      var found := FindMount(mounts, absPath);
      if found.Err? {
        return Err(found.error);
      }
      var (root, remainder) := found.value;
      if remainder == "" {
        OneComponent("");
        return Ok(root);
      }
      r := WalkFrom(g, root, Components(remainder), depth);
    }

    /** The loop over components. */
    method WalkFrom(g: Graph, base: Inode, names: seq<string>, depth: nat) returns (r: Result<Inode, FsError>)
      requires depth <= MAX_SYMLINK_DEPTH
      ensures r == Walk(g, mounts, base, names, depth)
      decreases MAX_SYMLINK_DEPTH + 1 - depth, 0
    {
      var current := base;
      var i := 0;
      assert names[0..] == names;
      while i < |names|
        invariant 0 <= i <= |names|
        invariant Walk(g, mounts, current, names[i..], depth) == Walk(g, mounts, base, names, depth)
      {
        assert names[i..][0] == names[i] && names[i..][1..] == names[i + 1..];
        var next := g.lookup(current, names[i]);
        if next.Err? {
          return Err(next.error);
        }
        current := next.value;
        if g.kind(current) == Symlink {
          var target := g.readLink(current);
          if target.Err? {
            return Err(target.error);
          }
          var resolved := ResolveWithDepth(g, target.value, depth + 1);
          if resolved.Err? {
            return Err(resolved.error);
          }
          current := resolved.value;
        }
        i := i + 1;
      }
      return Ok(current);
    }
  }
}
