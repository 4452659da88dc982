/** Properties of path resolution on every inode graph, cyclic ones included. */
module VfsTheorems {
  import opened Prelude
  import opened Path
  import opened Vfs

  // ---------------------------------------------------------------------------
  // Depth
  // ---------------------------------------------------------------------------

  /** A result other than the depth limit's error is the result at every smaller depth too. */
  lemma {:induction false} ShallowerAgrees(g: Graph, mounts: Mounts, path: string, d: nat, d': nat)
    requires d' <= d && Resolve(g, mounts, path, d) != Err(SymlinkLoop)
    ensures Resolve(g, mounts, path, d') == Resolve(g, mounts, path, d)
    decreases Max(0, MAX_SYMLINK_DEPTH + 1 - d), 1, 0
  {
    var found := FindMountSpec(mounts, path);
    if found.Ok? {
      ShallowerWalkAgrees(g, mounts, found.value.0, Components(found.value.1), d, d');
    }
  }

  lemma {:induction false} ShallowerWalkAgrees(g: Graph, mounts: Mounts, from: Inode, names: seq<string>, d: nat,
                                               d': nat)
    requires d' <= d <= MAX_SYMLINK_DEPTH && Walk(g, mounts, from, names, d) != Err(SymlinkLoop)
    ensures Walk(g, mounts, from, names, d') == Walk(g, mounts, from, names, d)
    decreases MAX_SYMLINK_DEPTH + 1 - d, 0, |names|
  {
    if names != [] {
      var next := g.lookup(from, names[0]);
      if next.Ok? && g.kind(next.value) == Symlink && g.readLink(next.value).Ok? {
        ShallowerAgrees(g, mounts, g.readLink(next.value).value, d + 1, d' + 1);
      }
      var step := Step(g, mounts, from, names[0], d);
      if step.Ok? {
        ShallowerWalkAgrees(g, mounts, step.value, names[1..], d, d');
      }
    }
  }

  /** Where walking `names` leads when no directory on the way is a link; the last name may be one. */
  ghost function Plain(g: Graph, from: Inode, names: seq<string>): Option<Inode>
    decreases |names|
  {
    if names == [] then None
    else
      match g.lookup(from, names[0])
      case Err(_) => None
      case Ok(next) =>
        if |names| == 1 then Some(next) else if g.kind(next) == Symlink then None else Plain(g, next, names[1..])
  }

  /** The path names `node`, through directories and mount points that are not links. */
  ghost predicate Names(g: Graph, mounts: Mounts, path: string, node: Inode) {
    var found := FindMountSpec(mounts, path);
    found.Ok? && Plain(g, found.value.0, Components(found.value.1)) == Some(node)
  }

  /** Each path names a link to the next, wherever they are mounted; the last one names no link. */
  ghost predicate Chain(g: Graph, mounts: Mounts, paths: seq<string>, nodes: seq<Inode>) {
    |paths| == |nodes| > 0 && forall i :: 0 <= i < |paths| ==> ChainAt(g, mounts, paths, nodes, i)
  }

  ghost predicate ChainAt(g: Graph, mounts: Mounts, paths: seq<string>, nodes: seq<Inode>, i: nat)
    requires i < |paths| == |nodes|
  {
    && Names(g, mounts, paths[i], nodes[i])
    && if i + 1 == |paths| then g.kind(nodes[i]) != Symlink
       else g.kind(nodes[i]) == Symlink && g.readLink(nodes[i]) == Ok(paths[i + 1])
  }

  /** What a node found on the way stands for. */
  ghost function Follow(g: Graph, mounts: Mounts, node: Inode, d: nat): Result<Inode, FsError> {
    if g.kind(node) != Symlink then Ok(node)
    else
      match g.readLink(node)
      case Err(e) => Err(e)
      case Ok(target) => Resolve(g, mounts, target, d + 1)
  }

  lemma {:induction false} PlainWalk(g: Graph, mounts: Mounts, from: Inode, names: seq<string>, d: nat)
    requires d <= MAX_SYMLINK_DEPTH && Plain(g, from, names).Some?
    ensures Walk(g, mounts, from, names, d) == Follow(g, mounts, Plain(g, from, names).value, d)
    decreases |names|
  {
    var next := g.lookup(from, names[0]).value;
    if |names| == 1 {
      var step := Step(g, mounts, from, names[0], d);
      assert step.Ok? ==> Walk(g, mounts, step.value, names[1..], d) == step;
    } else {
      PlainWalk(g, mounts, next, names[1..], d);
    }
  }

  /** A path that names a link resolves as the link's target one level deeper; one that names no link, to it. */
  lemma NamedResolves(g: Graph, mounts: Mounts, path: string, node: Inode, target: string, d: nat)
    requires d <= MAX_SYMLINK_DEPTH && Names(g, mounts, path, node)
    ensures g.kind(node) != Symlink ==> Resolve(g, mounts, path, d) == Ok(node)
    ensures g.kind(node) == Symlink && g.readLink(node) == Ok(target) ==>
              Resolve(g, mounts, path, d) == Resolve(g, mounts, target, d + 1)
  {
    var found := FindMountSpec(mounts, path).value;
    PlainWalk(g, mounts, found.0, Components(found.1), d);
  }

  /** The limit is exact: a chain of links, across any directories and mounts, resolves when at most eight links
      remain below the limit, and only then. */
  lemma ChainResolvesIff(g: Graph, mounts: Mounts, paths: seq<string>, nodes: seq<Inode>, i: nat,
                                            d: nat)
    requires Chain(g, mounts, paths, nodes) && i < |paths|
    ensures Resolve(g, mounts, paths[i], d)
            == if d + (|paths| - 1 - i) <= MAX_SYMLINK_DEPTH then Ok(nodes[|nodes| - 1]) else Err(SymlinkLoop)
  {
    forall j: nat, e: nat | j < |paths| && e <= MAX_SYMLINK_DEPTH
      ensures Hops(g, mounts, paths, nodes, j, e)
    {
      assert ChainAt(g, mounts, paths, nodes, j);
      NamedResolves(g, mounts, paths[j], nodes[j], if j + 1 == |paths| then "" else paths[j + 1], e);
    }
    HopsCount(g, mounts, paths, nodes, i, d);
  }

  /** At depth `d`, path `i` resolves as the next path does one level deeper, or to its own node at the end. */
  ghost predicate Hops(g: Graph, mounts: Mounts, paths: seq<string>, nodes: seq<Inode>, i: nat, d: nat)
    requires i < |paths| == |nodes|
  {
    Resolve(g, mounts, paths[i], d)
    == if i + 1 == |paths| then Ok(nodes[i]) else Resolve(g, mounts, paths[i + 1], d + 1)
  }

  lemma {:induction false} HopsCount(g: Graph, mounts: Mounts, paths: seq<string>, nodes: seq<Inode>, i: nat, d: nat)
    requires i < |paths| == |nodes|
    requires forall j: nat, e: nat :: j < |paths| && e <= MAX_SYMLINK_DEPTH ==> Hops(g, mounts, paths, nodes, j, e)
    ensures Resolve(g, mounts, paths[i], d)
            == if d + (|paths| - 1 - i) <= MAX_SYMLINK_DEPTH then Ok(nodes[|nodes| - 1]) else Err(SymlinkLoop)
    decreases |paths| - i
  {
    if d <= MAX_SYMLINK_DEPTH {
      assert Hops(g, mounts, paths, nodes, i, d);
      if i < |paths| - 1 {
        HopsCount(g, mounts, paths, nodes, i + 1, d + 1);
      }
    }
  }

  /** Every path on every graph has its own threshold: up to that depth it resolves to one and the same result,
      beyond it to the depth limit's error. */
  lemma DepthThreshold(g: Graph, mounts: Mounts, path: string) returns (top: int)
    ensures -1 <= top <= MAX_SYMLINK_DEPTH
    ensures forall d: nat ::
              Resolve(g, mounts, path, d) == if d <= top then Resolve(g, mounts, path, 0) else Err(SymlinkLoop)
    ensures top >= 0 ==> Resolve(g, mounts, path, 0) != Err(SymlinkLoop)
  {
    top := MAX_SYMLINK_DEPTH;
    while top >= 0 && Resolve(g, mounts, path, top) == Err(SymlinkLoop)
      invariant -1 <= top <= MAX_SYMLINK_DEPTH
      invariant forall d: nat :: d > top ==> Resolve(g, mounts, path, d) == Err(SymlinkLoop)
    {
      top := top - 1;
    }
    if top >= 0 {
      ShallowerAgrees(g, mounts, path, top, 0);
    }
    forall d: nat | d <= top
      ensures Resolve(g, mounts, path, d) == Resolve(g, mounts, path, 0)
    {
      ShallowerAgrees(g, mounts, path, top, d);
    }
  }

  // ---------------------------------------------------------------------------
  // Results
  // ---------------------------------------------------------------------------

  /** Some absolute path starts at this mount point. */
  predicate CanBeBest(mounts: Mounts, mp: string) {
    mp in mounts && (IsAbsolute(mp) || (mp == "" && SLASH !in mounts))
  }

  ghost predicate NoRootIsLink(g: Graph, mounts: Mounts) {
    forall mp :: CanBeBest(mounts, mp) ==> g.kind(mounts[mp]) != Symlink
  }

  ghost predicate NeverALink(g: Graph, mounts: Mounts) {
    forall path: string, d: nat ::
      var r := Resolve(g, mounts, path, d); r.Ok? ==> g.kind(r.value) != Symlink
  }

  lemma BestCanBeBest(mounts: Mounts, path: string)
    requires IsAbsolute(path) && Best(mounts.Keys, path).Some?
    ensures CanBeBest(mounts, Best(mounts.Keys, path).value)
  {
    var mp := Best(mounts.Keys, path).value;
    MatchIsPrefix(path, mp);
    assert SLASH in mounts.Keys ==> Matches(path, SLASH);
  }

  lemma {:induction false} ResultIsNoLink(g: Graph, mounts: Mounts, path: string, d: nat)
    requires NoRootIsLink(g, mounts)
    ensures var r := Resolve(g, mounts, path, d); r.Ok? ==> g.kind(r.value) != Symlink
    decreases Max(0, MAX_SYMLINK_DEPTH + 1 - d), 1, 0
  {
    var found := FindMountSpec(mounts, path);
    if d <= MAX_SYMLINK_DEPTH && found.Ok? {
      BestCanBeBest(mounts, path);
      WalkIsNoLink(g, mounts, found.value.0, Components(found.value.1), d);
    }
  }

  lemma {:induction false} WalkIsNoLink(g: Graph, mounts: Mounts, from: Inode, names: seq<string>, d: nat)
    requires NoRootIsLink(g, mounts) && d <= MAX_SYMLINK_DEPTH && g.kind(from) != Symlink
    ensures var r := Walk(g, mounts, from, names, d); r.Ok? ==> g.kind(r.value) != Symlink
    decreases MAX_SYMLINK_DEPTH + 1 - d, 0, |names|
  {
    if names != [] {
      var next := g.lookup(from, names[0]);
      if next.Ok? && g.kind(next.value) == Symlink && g.readLink(next.value).Ok? {
        ResultIsNoLink(g, mounts, g.readLink(next.value).value, d + 1);
      }
      var step := Step(g, mounts, from, names[0], d);
      if step.Ok? {
        WalkIsNoLink(g, mounts, step.value, names[1..], d);
      }
    }
  }

  /** A mount point that can be best is the best for some path with nothing left to walk. */
  lemma RootIsReached(g: Graph, mounts: Mounts, mp: string)
    requires CanBeBest(mounts, mp)
    ensures Resolve(g, mounts, if mp == "" then SLASH else mp, 0) == Ok(mounts[mp])
  {
    if mp != "" {
      RootIsReachedAt(g, mounts, mp, 0);
    } else {
      OneComponent("");
      assert Matches(SLASH, "");
      forall other | other in mounts.Keys && Matches(SLASH, other)
        ensures |other| <= 0
      {
        MatchIsPrefix(SLASH, other);
      }
      LongestIsUnique(SLASH, mounts.Keys, Some(""), Best(mounts.Keys, SLASH));
      assert StripMountPrefix(SLASH, "") == "";
    }
  }

  /** An absolute mount point resolves to its root at every depth within the limit. */
  lemma RootIsReachedAt(g: Graph, mounts: Mounts, mp: string, d: nat)
    requires mp in mounts && IsAbsolute(mp) && d <= MAX_SYMLINK_DEPTH
    ensures Resolve(g, mounts, mp, d) == Ok(mounts[mp])
  {
    OneComponent("");
    forall other | other in mounts.Keys && Matches(mp, other)
      ensures |other| <= |mp|
    {
      MatchIsPrefix(mp, other);
    }
    LongestIsUnique(mp, mounts.Keys, Some(mp), Best(mounts.Keys, mp));
    assert StripMountPrefix(mp, mp) == "";
  }

  /** Resolution never returns a symbolic link exactly when no usable mount has one as its root. */
  lemma NeverALinkIff(g: Graph, mounts: Mounts)
    ensures NeverALink(g, mounts) <==> NoRootIsLink(g, mounts)
  {
    if NoRootIsLink(g, mounts) {
      forall path: string, d: nat
        ensures var r := Resolve(g, mounts, path, d); r.Ok? ==> g.kind(r.value) != Symlink
      {
        ResultIsNoLink(g, mounts, path, d);
      }
    }
    if NeverALink(g, mounts) {
      forall mp | CanBeBest(mounts, mp)
        ensures g.kind(mounts[mp]) != Symlink
      {
        RootIsReached(g, mounts, mp);
      }
    }
  }

  /** The name is a symbolic link to `target`. */
  ghost predicate IsLink(g: Graph, from: Inode, name: string, target: string) {
    var next := g.lookup(from, name);
    next.Ok? && g.kind(next.value) == Symlink && g.readLink(next.value) == Ok(target)
  }

  /** Above the last level, a link can be followed, with some mounts, exactly when its target is absolute. */
  lemma LinkCanBeFollowedIff(g: Graph, from: Inode, name: string, target: string, d: nat)
    requires d < MAX_SYMLINK_DEPTH && IsLink(g, from, name, target)
    ensures (exists mounts: Mounts :: Step(g, mounts, from, name, d).Ok?) <==> IsAbsolute(target)
  {
    if IsAbsolute(target) {
      var mounts: Mounts := map[target := from];
      RootIsReachedAt(g, mounts, target, d + 1);
      assert Step(g, mounts, from, name, d) == Resolve(g, mounts, target, d + 1);
    } else {
      forall mounts: Mounts
        ensures !Step(g, mounts, from, name, d).Ok?
      {
        assert Step(g, mounts, from, name, d) == Resolve(g, mounts, target, d + 1) == Err(InvalidArgument);
      }
    }
  }

  // ---------------------------------------------------------------------------
  // Resolving in two stages
  // ---------------------------------------------------------------------------

  ghost function Then(g: Graph, mounts: Mounts, r: Result<Inode, FsError>, names: seq<string>, d: nat)
    : Result<Inode, FsError>
    requires d <= MAX_SYMLINK_DEPTH
  {
    match r
    case Err(e) => Err(e)
    case Ok(node) => Walk(g, mounts, node, names, d)
  }

  lemma {:induction false} WalkInTwo(g: Graph, mounts: Mounts, from: Inode, a: seq<string>, b: seq<string>, d: nat)
    requires d <= MAX_SYMLINK_DEPTH
    ensures Walk(g, mounts, from, a + b, d) == Then(g, mounts, Walk(g, mounts, from, a, d), b, d)
    decreases |a|
  {
    if a == [] {
      assert a + b == b;
    } else {
      assert (a + b)[0] == a[0] && (a + b)[1..] == a[1..] + b;
      var step := Step(g, mounts, from, a[0], d);
      if step.Ok? {
        WalkInTwo(g, mounts, step.value, a[1..], b, d);
      }
    }
  }

  /** Resolving `p/q` is resolving `p` and then `q` relative to it, when no mount point lies between them. */
  lemma ResolveInTwo(g: Graph, mounts: Mounts, p: string, q: string, d: nat)
    requires IsAbsolute(p) && d <= MAX_SYMLINK_DEPTH
    requires Best(mounts.Keys, p + SLASH + q) == Best(mounts.Keys, p)
    ensures Resolve(g, mounts, p + SLASH + q, d) == Then(g, mounts, Resolve(g, mounts, p, d), Components(q), d)
  {
    var best, path := Best(mounts.Keys, p), p + SLASH + q;
    if best.Some? {
      var mp := best.value;
      MatchIsPrefix(p, mp);
      var a, b := StripMountPrefix(p, mp), StripMountPrefix(path, mp);
      RestSplits(p, q, mp);
      WalkInTwo(g, mounts, mounts[mp], Components(a), Components(q), d);
    }
  }

  lemma RestSplits(p: string, q: string, mp: string)
    requires IsAbsolute(p) && Matches(p, mp) && |mp| <= |p|
    ensures Components(StripMountPrefix(p + SLASH + q, mp)) == Components(StripMountPrefix(p, mp)) + Components(q)
  {
    var a, b := StripMountPrefix(p, mp), StripMountPrefix(p + SLASH + q, mp);
    if mp != SLASH && |p| == |mp| {
      OneComponent("");
      assert b == q;
    } else {
      assert b == a + SLASH + q;
      ComponentsJoin(a, q);
    }
  }

  // ---------------------------------------------------------------------------
  // The lock-scoped resolver
  // ---------------------------------------------------------------------------

  /** The free `resolve_with_depth`: the lock is taken for each mount lookup only, and `tables(k)` is the mount
      table found under the `k`-th lock. Also returns how many locks have been taken. */
  ghost function Scoped(g: Graph, tables: nat -> Mounts, k: nat, path: string, depth: nat)
    : (Result<Inode, FsError>, nat)
    decreases Max(0, MAX_SYMLINK_DEPTH + 1 - depth), 1, 0
  {
    if depth > MAX_SYMLINK_DEPTH then (Err(SymlinkLoop), k)
    else
      match FindMountSpec(tables(k), path)
      case Err(e) => (Err(e), k + 1)
      case Ok((root, rest)) =>
        if rest == "" then (Ok(root), k + 1) else ScopedWalk(g, tables, k + 1, root, Components(rest), depth)
  }

  ghost function ScopedWalk(g: Graph, tables: nat -> Mounts, k: nat, from: Inode, names: seq<string>, depth: nat)
    : (Result<Inode, FsError>, nat)
    requires depth <= MAX_SYMLINK_DEPTH
    decreases MAX_SYMLINK_DEPTH + 1 - depth, 0, |names|
  {
    if names == [] then (Ok(from), k)
    else
      match g.lookup(from, names[0])
      case Err(e) => (Err(e), k)
      case Ok(next) =>
        if g.kind(next) != Symlink then ScopedWalk(g, tables, k, next, names[1..], depth)
        else
          match g.readLink(next)
          case Err(e) => (Err(e), k)
          case Ok(target) =>
            var (r, k') := Scoped(g, tables, k, target, depth + 1);
            match r
            case Err(e) => (Err(e), k')
            case Ok(node) => ScopedWalk(g, tables, k', node, names[1..], depth)
  }

  /** The code of the free `resolve_with_depth`. */
  method ResolveScoped(g: Graph, tables: nat -> Mounts, k: nat, absPath: string, depth: nat)
    returns (r: Result<Inode, FsError>, k': nat)
    ensures (r, k') == Scoped(g, tables, k, absPath, depth)
    decreases Max(0, MAX_SYMLINK_DEPTH + 1 - depth), 1
  {
    if depth > MAX_SYMLINK_DEPTH {
      return Err(SymlinkLoop), k;
    }
    var found := FindMount(tables(k), absPath);
    k' := k + 1;
    if found.Err? {
      return Err(found.error), k';
    }
    var (root, remainder) := found.value;
    if remainder == "" {
      return Ok(root), k';
    }
    r, k' := WalkScoped(g, tables, k', root, Components(remainder), depth);
  }

  method WalkScoped(g: Graph, tables: nat -> Mounts, k: nat, root: Inode, names: seq<string>, depth: nat)
    returns (r: Result<Inode, FsError>, k': nat)
    requires depth <= MAX_SYMLINK_DEPTH
    ensures (r, k') == ScopedWalk(g, tables, k, root, names, depth)
    decreases MAX_SYMLINK_DEPTH + 1 - depth, 0
  {
    var current := root;
    var i := 0;
    k' := k;
    assert names[0..] == names;
    while i < |names|
      invariant 0 <= i <= |names|
      invariant ScopedWalk(g, tables, k', current, names[i..], depth) == ScopedWalk(g, tables, k, root, names, depth)
    {
      assert names[i..][0] == names[i] && names[i..][1..] == names[i + 1..];
      var next := g.lookup(current, names[i]);
      if next.Err? {
        return Err(next.error), k';
      }
      current := next.value;
      if g.kind(current) == Symlink {
        var target := g.readLink(current);
        if target.Err? {
          return Err(target.error), k';
        }
        var resolved;
        resolved, k' := ResolveScoped(g, tables, k', target.value, depth + 1);
        if resolved.Err? {
          return Err(resolved.error), k';
        }
        current := resolved.value;
      }
      i := i + 1;
    }
    return Ok(current), k';
  }

  /** The code of `resolve_relative_with_depth`: links are followed by the lock-scoped resolver. */
  method ResolveRelative(g: Graph, tables: nat -> Mounts, k: nat, base: Inode, relPath: string, depth: nat)
    returns (r: Result<Inode, FsError>, k': nat)
    ensures (r, k') == if depth > MAX_SYMLINK_DEPTH then (Err(SymlinkLoop), k)
                       else ScopedWalk(g, tables, k, base, Components(relPath), depth)
  {
    if depth > MAX_SYMLINK_DEPTH {
      return Err(SymlinkLoop), k;
    }
    r, k' := WalkScoped(g, tables, k, base, Components(relPath), depth);
  }

  /** While the mount table does not change, the lock-scoped resolver and `Vfs::resolve` agree. */
  lemma {:induction false} ScopedAgrees(g: Graph, tables: nat -> Mounts, mounts: Mounts, k: nat, path: string, d: nat)
    requires forall i :: tables(i) == mounts
    ensures Scoped(g, tables, k, path, d).0 == Resolve(g, mounts, path, d)
    decreases Max(0, MAX_SYMLINK_DEPTH + 1 - d), 1, 0
  {
    var found := FindMountSpec(mounts, path);
    if d <= MAX_SYMLINK_DEPTH && found.Ok? {
      OneComponent("");
      ScopedWalkAgrees(g, tables, mounts, k + 1, found.value.0, Components(found.value.1), d);
    }
  }

  lemma {:induction false} ScopedWalkAgrees(g: Graph, tables: nat -> Mounts, mounts: Mounts, k: nat, from: Inode,
                                            names: seq<string>, d: nat)
    requires (forall i :: tables(i) == mounts) && d <= MAX_SYMLINK_DEPTH
    ensures ScopedWalk(g, tables, k, from, names, d).0 == Walk(g, mounts, from, names, d)
    decreases MAX_SYMLINK_DEPTH + 1 - d, 0, |names|
  {
    if names != [] {
      var next := g.lookup(from, names[0]);
      var k' := k;
      if next.Ok? && g.kind(next.value) == Symlink && g.readLink(next.value).Ok? {
        ScopedAgrees(g, tables, mounts, k, g.readLink(next.value).value, d + 1);
        k' := Scoped(g, tables, k, g.readLink(next.value).value, d + 1).1;
      }
      var step := Step(g, mounts, from, names[0], d);
      if step.Ok? {
        ScopedWalkAgrees(g, tables, mounts, k', step.value, names[1..], d);
      }
    }
  }

  /** While the mount table does not change, resolving `p/q` is resolving `p` and then `q` with the relative
      resolver, when no mount point lies between them. */
  lemma RelativeCompletes(g: Graph, tables: nat -> Mounts, mounts: Mounts, k: nat, p: string, q: string, base: Inode,
                          d: nat)
    requires (forall i :: tables(i) == mounts) && d <= MAX_SYMLINK_DEPTH
    requires IsAbsolute(p) && Best(mounts.Keys, p + SLASH + q) == Best(mounts.Keys, p)
    requires Resolve(g, mounts, p, d) == Ok(base)
    ensures ScopedWalk(g, tables, k, base, Components(q), d).0 == Resolve(g, mounts, p + SLASH + q, d)
  {
    ResolveInTwo(g, mounts, p, q, d);
    ScopedWalkAgrees(g, tables, mounts, k, base, Components(q), d);
  }
}
