/** Which inode resolution finds, and which error it gives, without reference to how it walks. */
module VfsTrails {
  import opened Prelude
  import opened Path
  import opened Vfs
  import opened VfsTheorems

  // ---------------------------------------------------------------------------
  // The mount a path starts from
  // ---------------------------------------------------------------------------

  /** What is mounted at the path with these components. The empty string stands in for a missing root mount. */
  ghost function MountAt(mounts: Mounts, names: seq<string>): Option<Inode> {
    if PathOf(names) in mounts then Some(mounts[PathOf(names)])
    else if names == [] && "" in mounts then Some(mounts[""])
    else None
  }

  lemma PathOfGrows(names: seq<string>, i: nat, j: nat)
    requires AllNames(names) && i < j <= |names|
    ensures |PathOf(names[..i])| < |PathOf(names[..j])|
  {
    var front := names[..j];
    assert front[..i] == names[..i];
    JoinInTwo(front, i);
    JoinIs(front[i..]);
  }

  /** The mount of the first `i` components, and what it leaves to walk, when nothing is mounted between it and
      the path. */
  lemma DeepestIsBest(mounts: Mounts, names: seq<string>, i: nat)
    requires AllNames(names) && i <= |names| && MountAt(mounts, names[..i]).Some?
    requires forall j :: i < j <= |names| ==> MountAt(mounts, names[..j]) == None
    ensures
      var mp := if i == 0 && SLASH !in mounts then "" else PathOf(names[..i]);
      mp in mounts && Best(mounts.Keys, PathOf(names)) == Some(mp) && mounts[mp] == MountAt(mounts, names[..i]).value
  {
    var path := PathOf(names);
    var mp := if i == 0 && SLASH !in mounts then "" else PathOf(names[..i]);
    assert names[..0] == [];
    PathIsAbsolute(names);
    assert Matches(path, mp) by {
      if i > 0 {
        PrefixMatches(names, i);
      }
    }
    forall other | other in mounts.Keys && Matches(path, other)
      ensures |other| <= |mp|
    {
      MatchesIff(names, other);
      if LiesAbove(other, names) {
        var j: nat :| 0 < j <= |names| && other == Join(names[..j]);
        assert other == PathOf(names[..j]) && MountAt(mounts, names[..j]).Some?;
        if j < i {
          PathOfGrows(names, j, i);
        }
      } else if other == SLASH && i > 0 {
        PathOfGrows(names, 0, i);
      }
    }
    LongestIsUnique(path, mounts.Keys, Some(mp), Best(mounts.Keys, path));
  }

  lemma PathIsAbsolute(names: seq<string>)
    ensures IsAbsolute(PathOf(names))
  {
    if names != [] {
      JoinIs(names);
    }
  }

  /** A path resolves on the deepest mount above it, and the components below that mount are what is walked. It
      finds no mount exactly when there is none above it. */
  lemma DeepestMount(mounts: Mounts, names: seq<string>, i: nat)
    requires AllNames(names) && i <= |names|
    requires forall j :: i < j <= |names| ==> MountAt(mounts, names[..j]) == None
    ensures var found := FindMountSpec(mounts, PathOf(names));
            match MountAt(mounts, names[..i])
            case Some(root) => found.Ok? && found.value.0 == root && Components(found.value.1) == names[i..]
            case None => i == 0 ==> found == Err(NotFound)
  {
    PathIsAbsolute(names);
    var path := PathOf(names);
    assert names[..0] == [];
    if MountAt(mounts, names[..i]).Some? {
      DeepestIsBest(mounts, names, i);
      var mp := if i == 0 && SLASH !in mounts then "" else PathOf(names[..i]);
      MountLosesNothing(path, mp);
      ComponentsOfPath(names);
      ComponentsOfPath(names[..i]);
      OneComponent("");
      assert Components(mp) == names[..i];
    } else if i == 0 {
      forall mp | mp in mounts.Keys
        ensures !Matches(path, mp)
      {
        MatchesIff(names, mp);
        assert forall j: nat :: 0 < j <= |names| ==> MountAt(mounts, names[..j]) == None && mp != Join(names[..j]);
      }
    }
  }

  lemma ComponentsOfPath(names: seq<string>)
    requires AllNames(names)
    ensures Components(PathOf(names)) == names
  {
    if names == [] {
      RootHasNoComponents();
    } else {
      ComponentsOfJoin(names);
    }
  }

  // ---------------------------------------------------------------------------
  // Trails
  // ---------------------------------------------------------------------------

  /** An inode reached after the mount table was locked this many times. */
  datatype Place = Place(node: Inode, locks: nat)

  /** The path starts at the mount point `mp`: the longest one that matches. */
  ghost predicate StartsAt(mounts: Mounts, path: string, mp: string) {
    IsAbsolute(path) && mp in mounts && IsLongest(path, mounts.Keys, Some(mp)) && (mp == SLASH || |mp| <= |path|)
  }

  /** The components below a mount point. */
  ghost function Below(path: string, mp: string): seq<string>
    requires mp == SLASH || |mp| <= |path|
  {
    Components(StripMountPrefix(path, mp))
  }

  /** An answer for a path looked up at lock number `k`: the place it leads to, or the error it fails with and the
      locks taken until then. */
  datatype Answer =
    | Found(k: nat, path: string, to: Place)
    | Failed(k: nat, path: string, e: FsError, locks: nat)

  /** The right answers at a depth, from the right answers one level deeper: past eight levels of links, failure.
      `tables(k)` is the mount table found under the lock numbered `k`. */
  ghost function Answers(g: Graph, tables: nat -> Mounts, depth: nat): iset<Answer>
    decreases Max(0, MAX_SYMLINK_DEPTH + 1 - depth)
  {
    if depth > MAX_SYMLINK_DEPTH then iset a: Answer | a.Failed? && a.e == SymlinkLoop && a.locks == a.k
    else
      var deeper := Answers(g, tables, depth + 1);
      iset a: Answer | IsRight(g, tables, deeper, a)
  }

  /** A path leads somewhere by a trail through all its components from its mount. It fails for want of a leading
      slash, for want of a mount, or by a trail through some of its components that breaks at the next one. */
  ghost predicate IsRight(g: Graph, tables: nat -> Mounts, deeper: iset<Answer>, a: Answer) {
    match a
    case Found(k, path, to) =>
      exists mp ::
        StartsAt(tables(k), path, mp) && Leads(g, deeper, Place(tables(k)[mp], k + 1), Below(path, mp), to)
    case Failed(k, path, e, locks) =>
      if !IsAbsolute(path) then e == InvalidArgument && locks == k + 1
      else if forall mp :: mp in tables(k) ==> !Matches(path, mp) then e == NotFound && locks == k + 1
      else
        exists mp ::
          StartsAt(tables(k), path, mp) && Stops(g, deeper, Place(tables(k)[mp], k + 1), Below(path, mp), e, locks)
  }

  /** Some trail of the components ends at `to`. */
  ghost predicate Leads(g: Graph, deeper: iset<Answer>, from: Place, names: seq<string>, to: Place) {
    exists trail: seq<Place> :: IsTrail(g, deeper, trail, names) && trail[0] == from && trail[|names|] == to
  }

  /** Each component leads from one place of the trail to the next. */
  ghost predicate IsTrail(g: Graph, deeper: iset<Answer>, trail: seq<Place>, names: seq<string>) {
    |trail| == |names| + 1 && forall i :: 0 <= i < |names| ==> Hop(g, deeper, trail[i], names[i], trail[i + 1])
  }

  /** What one component leads to: nothing, an inode, or a link. */
  datatype Entry = Nothing(e: FsError) | Node(node: Inode) | Link(target: string)

  ghost function Look(g: Graph, dir: Inode, name: string): Entry {
    var next := g.lookup(dir, name);
    if next.Err? then Nothing(next.error)
    else if g.kind(next.value) != Symlink then Node(next.value)
    else
      var target := g.readLink(next.value);
      if target.Err? then Nothing(target.error) else Link(target.value)
  }

  /** One component leads to its inode or, if that is a link, to where its target leads one level deeper. */
  ghost predicate Hop(g: Graph, deeper: iset<Answer>, from: Place, name: string, to: Place) {
    match Look(g, from.node, name)
    case Nothing(_) => false
    case Node(node) => to == Place(node, from.locks)
    case Link(target) => Found(from.locks, target, to) in deeper
  }

  /** Some components lead to a place where the next one breaks. */
  ghost predicate Stops(g: Graph, deeper: iset<Answer>, from: Place, names: seq<string>, e: FsError, locks: nat) {
    exists i: nat, at: Place :: i < |names| && StopsAt(g, deeper, from, names, i, at, e, locks)
  }

  ghost predicate StopsAt(g: Graph, deeper: iset<Answer>, from: Place, names: seq<string>, i: nat, at: Place,
                          e: FsError, locks: nat)
    requires i < |names|
  {
    Leads(g, deeper, from, names[..i], at) && Breaks(g, deeper, at, names[i], e, locks)
  }

  /** The lookup fails, the link cannot be read, or its target fails one level deeper. */
  ghost predicate Breaks(g: Graph, deeper: iset<Answer>, from: Place, name: string, e: FsError, locks: nat) {
    match Look(g, from.node, name)
    case Nothing(error) => e == error && locks == from.locks
    case Node(_) => false
    case Link(target) => Failed(from.locks, target, e, locks) in deeper
  }

  // ---------------------------------------------------------------------------
  // Trails step by step
  // ---------------------------------------------------------------------------

  lemma LeadsNil(g: Graph, deeper: iset<Answer>, from: Place, to: Place)
    ensures Leads(g, deeper, from, [], to) <==> from == to
  {
    assert IsTrail(g, deeper, [from], []);
  }

  /** A trail is its first hop and the trail from there. */
  lemma LeadsCons(g: Graph, deeper: iset<Answer>, from: Place, names: seq<string>, to: Place)
    requires names != []
    ensures Leads(g, deeper, from, names, to) <==>
            exists mid: Place :: Hop(g, deeper, from, names[0], mid) && Leads(g, deeper, mid, names[1..], to)
  {
    if trail: seq<Place> :| IsTrail(g, deeper, trail, names) && trail[0] == from && trail[|names|] == to {
      TrailTail(g, deeper, trail, names);
      assert Hop(g, deeper, from, names[0], trail[1]);
    }
    if mid: Place :| Hop(g, deeper, from, names[0], mid) && Leads(g, deeper, mid, names[1..], to) {
      LeadsFrom(g, deeper, from, names, mid, to);
    }
  }

  lemma TrailTail(g: Graph, deeper: iset<Answer>, trail: seq<Place>, names: seq<string>)
    requires names != [] && IsTrail(g, deeper, trail, names)
    ensures Hop(g, deeper, trail[0], names[0], trail[1]) && Leads(g, deeper, trail[1], names[1..], trail[|names|])
  {
    var tail, rest := trail[1..], names[1..];
    forall i | 0 <= i < |rest|
      ensures Hop(g, deeper, tail[i], rest[i], tail[i + 1])
    {
      assert Hop(g, deeper, trail[i + 1], names[i + 1], trail[i + 2]);
    }
    assert IsTrail(g, deeper, tail, rest);
  }

  lemma LeadsFrom(g: Graph, deeper: iset<Answer>, from: Place, names: seq<string>, mid: Place, to: Place)
    requires names != [] && Hop(g, deeper, from, names[0], mid) && Leads(g, deeper, mid, names[1..], to)
    ensures Leads(g, deeper, from, names, to)
  {
    var rest := names[1..];
    var tail: seq<Place> :| IsTrail(g, deeper, tail, rest) && tail[0] == mid && tail[|rest|] == to;
    var trail := [from] + tail;
    forall i | 0 <= i < |names|
      ensures Hop(g, deeper, trail[i], names[i], trail[i + 1])
    {
      assert i > 0 ==> Hop(g, deeper, tail[i - 1], rest[i - 1], tail[i]);
    }
    assert IsTrail(g, deeper, trail, names);
  }

  /** A walk that stops breaks at its first component, or hops and stops later. */
  lemma StopsCons(g: Graph, deeper: iset<Answer>, from: Place, names: seq<string>, e: FsError, locks: nat)
    requires names != []
    ensures Stops(g, deeper, from, names, e, locks) <==>
            || Breaks(g, deeper, from, names[0], e, locks)
            || exists mid: Place :: Hop(g, deeper, from, names[0], mid) && Stops(g, deeper, mid, names[1..], e, locks)
  {
    if i: nat, at: Place :| i < |names| && StopsAt(g, deeper, from, names, i, at, e, locks) {
      StopsLater(g, deeper, from, names, i, at, e, locks);
    }
    if Breaks(g, deeper, from, names[0], e, locks) {
      assert names[..0] == [];
      LeadsNil(g, deeper, from, from);
      assert StopsAt(g, deeper, from, names, 0, from, e, locks);
    }
    if mid: Place :| Hop(g, deeper, from, names[0], mid) && Stops(g, deeper, mid, names[1..], e, locks) {
      StopsFrom(g, deeper, from, names, mid, e, locks);
    }
  }

  lemma StopsLater(g: Graph, deeper: iset<Answer>, from: Place, names: seq<string>, i: nat, at: Place, e: FsError,
                   locks: nat)
    requires i < |names| && StopsAt(g, deeper, from, names, i, at, e, locks)
    ensures || Breaks(g, deeper, from, names[0], e, locks)
            || exists mid: Place :: Hop(g, deeper, from, names[0], mid) && Stops(g, deeper, mid, names[1..], e, locks)
  {
    if i == 0 {
      assert names[..0] == [];
      LeadsNil(g, deeper, from, at);
    } else {
      var front, rest := names[..i], names[1..];
      LeadsCons(g, deeper, from, front, at);
      assert front[1..] == rest[..i - 1] && rest[i - 1] == names[i] && front[0] == names[0];
      var mid: Place :| Hop(g, deeper, from, names[0], mid) && Leads(g, deeper, mid, rest[..i - 1], at);
      assert StopsAt(g, deeper, mid, rest, i - 1, at, e, locks);
    }
  }

  lemma StopsFrom(g: Graph, deeper: iset<Answer>, from: Place, names: seq<string>, mid: Place, e: FsError, locks: nat)
    requires names != [] && Hop(g, deeper, from, names[0], mid) && Stops(g, deeper, mid, names[1..], e, locks)
    ensures Stops(g, deeper, from, names, e, locks)
  {
    var rest := names[1..];
    var i: nat, at: Place :| i < |rest| && StopsAt(g, deeper, mid, rest, i, at, e, locks);
    var front := names[..i + 1];
    assert front[1..] == rest[..i] && names[i + 1] == rest[i] && front[0] == names[0];
    LeadsFrom(g, deeper, from, front, mid, at);
    assert StopsAt(g, deeper, from, names, i + 1, at, e, locks);
  }

  // ---------------------------------------------------------------------------
  // The resolvers give the right answers
  // ---------------------------------------------------------------------------

  /** The longest matching mount point is the one the lookup finds. */
  lemma StartsAtIff(mounts: Mounts, path: string, mp: string)
    ensures StartsAt(mounts, path, mp) <==> IsAbsolute(path) && Best(mounts.Keys, path) == Some(mp)
  {
    if StartsAt(mounts, path, mp) {
      LongestIsUnique(path, mounts.Keys, Some(mp), Best(mounts.Keys, path));
    }
  }

  lemma NoStart(mounts: Mounts, path: string)
    requires IsAbsolute(path)
    ensures Best(mounts.Keys, path) == None <==> forall mp :: mp in mounts ==> !Matches(path, mp)
  {
  }

  /** What a resolver that ends with `r` after `locks` locks says about the path. */
  ghost function Says(k: nat, path: string, r: Result<Inode, FsError>, locks: nat): Answer {
    match r
    case Ok(n) => Found(k, path, Place(n, locks))
    case Err(e) => Failed(k, path, e, locks)
  }

  /** The answers of the lock-scoped resolver at a depth. */
  ghost predicate Resolved(g: Graph, tables: nat -> Mounts, d: nat, answers: iset<Answer>) {
    forall a: Answer :: a in answers <==> ByResolver(g, tables, d, a)
  }

  ghost predicate ByResolver(g: Graph, tables: nat -> Mounts, d: nat, a: Answer) {
    var (r, locks) := Scoped(g, tables, a.k, a.path, d);
    a == Says(a.k, a.path, r, locks)
  }

  /** Where the resolver goes from a place by one component. */
  ghost function Next(g: Graph, tables: nat -> Mounts, from: Place, name: string, d: nat): (Result<Inode, FsError>, nat)
  {
    match Look(g, from.node, name)
    case Nothing(e) => (Err(e), from.locks)
    case Node(node) => (Ok(node), from.locks)
    case Link(target) => Scoped(g, tables, from.locks, target, d + 1)
  }

  lemma WalkHops(g: Graph, tables: nat -> Mounts, from: Place, names: seq<string>, d: nat)
    requires d <= MAX_SYMLINK_DEPTH && names != []
    ensures
      var (r, k') := Next(g, tables, from, names[0], d);
      ScopedWalk(g, tables, from.locks, from.node, names, d) ==
      match r
      case Err(e) => (Err(e), k')
      case Ok(node) => ScopedWalk(g, tables, k', node, names[1..], d)
  {
  }

  lemma AnswersOf(g: Graph, tables: nat -> Mounts, d: nat, answers: iset<Answer>, k: nat, path: string)
    requires Resolved(g, tables, d, answers)
    ensures forall to: Place ::
              Found(k, path, to) in answers <==> Scoped(g, tables, k, path, d) == (Ok(to.node), to.locks)
    ensures forall e: FsError, n: nat ::
              Failed(k, path, e, n) in answers <==> Scoped(g, tables, k, path, d) == (Err(e), n)
  {
    var (r, locks) := Scoped(g, tables, k, path, d);
    forall to: Place
      ensures Found(k, path, to) in answers <==> r == Ok(to.node) && locks == to.locks
    {
      assert Found(k, path, to) in answers <==> ByResolver(g, tables, d, Found(k, path, to));
    }
    forall e: FsError, n: nat
      ensures Failed(k, path, e, n) in answers <==> r == Err(e) && locks == n
    {
      assert Failed(k, path, e, n) in answers <==> ByResolver(g, tables, d, Failed(k, path, e, n));
    }
  }

  /** One component leads, or breaks, as the resolver goes. */
  lemma HopIff(g: Graph, tables: nat -> Mounts, d: nat, deeper: iset<Answer>, from: Place, name: string, to: Place,
               e: FsError, locks: nat)
    requires Resolved(g, tables, d + 1, deeper)
    ensures
      var next := Next(g, tables, from, name, d);
      && (Hop(g, deeper, from, name, to) <==> next == (Ok(to.node), to.locks))
      && (Breaks(g, deeper, from, name, e, locks) <==> next == (Err(e), locks))
  {
    match Look(g, from.node, name)
    case Link(target) => AnswersOf(g, tables, d + 1, deeper, from.locks, target);
    case _ =>
  }

  /** A walk ends where a trail leads, and fails where one stops. */
  lemma {:induction false} WalkIff(g: Graph, tables: nat -> Mounts, d: nat, deeper: iset<Answer>, from: Place,
                                   names: seq<string>, to: Place, e: FsError, locks: nat)
    requires d <= MAX_SYMLINK_DEPTH && Resolved(g, tables, d + 1, deeper)
    ensures
      var walked := ScopedWalk(g, tables, from.locks, from.node, names, d);
      && (Leads(g, deeper, from, names, to) <==> walked == (Ok(to.node), to.locks))
      && (Stops(g, deeper, from, names, e, locks) <==> walked == (Err(e), locks))
    decreases |names|
  {
    if names == [] {
      LeadsNil(g, deeper, from, to);
    } else {
      LeadsCons(g, deeper, from, names, to);
      StopsCons(g, deeper, from, names, e, locks);
      WalkHops(g, tables, from, names, d);
      forall mid: Place
        ensures Hop(g, deeper, from, names[0], mid) <==> Next(g, tables, from, names[0], d) == (Ok(mid.node), mid.locks)
      {
        HopIff(g, tables, d, deeper, from, names[0], mid, e, locks);
      }
      HopIff(g, tables, d, deeper, from, names[0], to, e, locks);
      var (r, k') := Next(g, tables, from, names[0], d);
      if r.Ok? {
        WalkIff(g, tables, d, deeper, Place(r.value, k'), names[1..], to, e, locks);
        assert Hop(g, deeper, from, names[0], Place(r.value, k'));
      }
    }
  }

  lemma ScopedUnfolds(g: Graph, tables: nat -> Mounts, k: nat, path: string, d: nat)
    requires d <= MAX_SYMLINK_DEPTH
    ensures Scoped(g, tables, k, path, d) ==
            if !IsAbsolute(path) then (Err(InvalidArgument), k + 1)
            else
              match Best(tables(k).Keys, path)
              case None => (Err(NotFound), k + 1)
              case Some(mp) => ScopedWalk(g, tables, k + 1, tables(k)[mp], Below(path, mp), d)
  {
    OneComponent("");
  }

  lemma FoundIff(g: Graph, tables: nat -> Mounts, d: nat, deeper: iset<Answer>, a: Answer)
    requires d <= MAX_SYMLINK_DEPTH && Resolved(g, tables, d + 1, deeper) && a.Found?
    ensures IsRight(g, tables, deeper, a) <==> Scoped(g, tables, a.k, a.path, d) == (Ok(a.to.node), a.to.locks)
  {
    ScopedUnfolds(g, tables, a.k, a.path, d);
    RightFind(g, tables, deeper, a);
    if IsAbsolute(a.path) && Best(tables(a.k).Keys, a.path).Some? {
      var mp := Best(tables(a.k).Keys, a.path).value;
      WalkIff(g, tables, d, deeper, Place(tables(a.k)[mp], a.k + 1), Below(a.path, mp), a.to, NotFound, 0);
    }
  }

  /** A path leads somewhere only from its mount. */
  lemma RightFind(g: Graph, tables: nat -> Mounts, deeper: iset<Answer>, a: Answer)
    requires a.Found?
    ensures IsRight(g, tables, deeper, a) <==>
            IsAbsolute(a.path) &&
            match Best(tables(a.k).Keys, a.path)
            case None => false
            case Some(mp) => Leads(g, deeper, Place(tables(a.k)[mp], a.k + 1), Below(a.path, mp), a.to)
  {
    forall mp
      ensures StartsAt(tables(a.k), a.path, mp) <==> IsAbsolute(a.path) && Best(tables(a.k).Keys, a.path) == Some(mp)
    {
      StartsAtIff(tables(a.k), a.path, mp);
    }
  }

  lemma FailedIff(g: Graph, tables: nat -> Mounts, d: nat, deeper: iset<Answer>, a: Answer)
    requires d <= MAX_SYMLINK_DEPTH && Resolved(g, tables, d + 1, deeper) && a.Failed?
    ensures IsRight(g, tables, deeper, a) <==> Scoped(g, tables, a.k, a.path, d) == (Err(a.e), a.locks)
  {
    ScopedUnfolds(g, tables, a.k, a.path, d);
    if IsAbsolute(a.path) {
      NoStart(tables(a.k), a.path);
      if Best(tables(a.k).Keys, a.path).Some? {
        var mp := Best(tables(a.k).Keys, a.path).value;
        var root := Place(tables(a.k)[mp], a.k + 1);
        RightFailure(g, tables, deeper, a, mp);
        WalkIff(g, tables, d, deeper, root, Below(a.path, mp), root, a.e, a.locks);
      }
    }
  }

  /** With a mount to start from, a path fails by a trail that stops. */
  lemma RightFailure(g: Graph, tables: nat -> Mounts, deeper: iset<Answer>, a: Answer, mp: string)
    requires a.Failed? && IsAbsolute(a.path) && Best(tables(a.k).Keys, a.path) == Some(mp)
    ensures IsRight(g, tables, deeper, a) <==>
            Stops(g, deeper, Place(tables(a.k)[mp], a.k + 1), Below(a.path, mp), a.e, a.locks)
  {
    NoStart(tables(a.k), a.path);
    OneStart(tables(a.k), a.path, mp);
  }

  lemma OneStart(mounts: Mounts, path: string, mp: string)
    requires IsAbsolute(path) && Best(mounts.Keys, path) == Some(mp)
    ensures forall other :: StartsAt(mounts, path, other) <==> other == mp
  {
    forall other
      ensures StartsAt(mounts, path, other) <==> other == mp
    {
      StartsAtIff(mounts, path, other);
    }
  }

  /** The answers at one depth, from those one level deeper. */
  ghost predicate Level(g: Graph, tables: nat -> Mounts, d: nat, answers: iset<Answer>, deeper: iset<Answer>) {
    forall a: Answer :: a in answers <==>
      if d > MAX_SYMLINK_DEPTH then a.Failed? && a.e == SymlinkLoop && a.locks == a.k else IsRight(g, tables, deeper, a)
  }

  lemma AnswersLevel(g: Graph, tables: nat -> Mounts, d: nat)
    ensures Level(g, tables, d, Answers(g, tables, d), Answers(g, tables, d + 1))
  {
  }

  lemma LevelIsRight(g: Graph, tables: nat -> Mounts, d: nat, answers: iset<Answer>, deeper: iset<Answer>)
    requires Level(g, tables, d, answers, deeper) && (d <= MAX_SYMLINK_DEPTH ==> Resolved(g, tables, d + 1, deeper))
    ensures Resolved(g, tables, d, answers)
  {
    forall a: Answer
      ensures a in answers <==> ByResolver(g, tables, d, a)
    {
      if d > MAX_SYMLINK_DEPTH {
        assert Scoped(g, tables, a.k, a.path, d) == (Err(SymlinkLoop), a.k);
      } else if a.Found? {
        FoundIff(g, tables, d, deeper, a);
      } else {
        FailedIff(g, tables, d, deeper, a);
      }
    }
  }

  /** The lock-scoped resolver gives the right answer, and only that, on every graph and whatever mount tables it
      finds: its result, its error, and the locks it has taken. */
  lemma {:induction false} ScopedIsRight(g: Graph, tables: nat -> Mounts, d: nat)
    ensures Resolved(g, tables, d, Answers(g, tables, d))
    decreases Max(0, MAX_SYMLINK_DEPTH + 1 - d)
  {
    if d <= MAX_SYMLINK_DEPTH {
      ScopedIsRight(g, tables, d + 1);
    }
    AnswersLevel(g, tables, d);
    LevelIsRight(g, tables, d, Answers(g, tables, d), Answers(g, tables, d + 1));
  }

  /** So does the relative resolver: it ends where a trail from its base leads, and fails where one stops. */
  lemma RelativeIsRight(g: Graph, tables: nat -> Mounts, d: nat, from: Place, path: string, to: Place, e: FsError,
                        locks: nat)
    requires d <= MAX_SYMLINK_DEPTH
    ensures
      var deeper := Answers(g, tables, d + 1);
      var walked := ScopedWalk(g, tables, from.locks, from.node, Components(path), d);
      && (walked == (Ok(to.node), to.locks) <==> Leads(g, deeper, from, Components(path), to))
      && (walked == (Err(e), locks) <==> Stops(g, deeper, from, Components(path), e, locks))
  {
    ScopedIsRight(g, tables, d + 1);
    WalkIff(g, tables, d, Answers(g, tables, d + 1), from, Components(path), to, e, locks);
  }

  // ---------------------------------------------------------------------------
  // A fixed mount table
  // ---------------------------------------------------------------------------

  /** Every lock finds the same mount table. */
  ghost function Always(mounts: Mounts): nat -> Mounts {
    _ => mounts
  }

  /** `Vfs::resolve` gives the right answer, and only that. */
  lemma ResolveIsRight(g: Graph, mounts: Mounts, path: string, d: nat, r: Result<Inode, FsError>)
    ensures Resolve(g, mounts, path, d) == r <==>
            exists locks: nat :: Says(0, path, r, locks) in Answers(g, Always(mounts), d)
  {
    var tables := Always(mounts);
    ScopedAgrees(g, tables, mounts, 0, path, d);
    ScopedIsRight(g, tables, d);
    var (r', k') := Scoped(g, tables, 0, path, d);
    assert ByResolver(g, tables, d, Says(0, path, r', k'));
    forall locks: nat | Says(0, path, r, locks) in Answers(g, tables, d)
      ensures r == r'
    {
      assert ByResolver(g, tables, d, Says(0, path, r, locks));
    }
  }

  /** A missing component, or a link that cannot be read, ends resolution with its own error, whatever follows. */
  lemma MissingNameFails(g: Graph, mounts: Mounts, p: string, x: string, q: string, d: nat, dir: Inode, e: FsError)
    requires IsAbsolute(p) && d <= MAX_SYMLINK_DEPTH && IsComponent(x) && Resolve(g, mounts, p, d) == Ok(dir)
    requires Best(mounts.Keys, p + SLASH + (x + SLASH + q)) == Best(mounts.Keys, p)
    requires
      var next := g.lookup(dir, x);
      next == Err(e) || (next.Ok? && g.kind(next.value) == Symlink && g.readLink(next.value) == Err(e))
    ensures Resolve(g, mounts, p + SLASH + (x + SLASH + q), d) == Err(e)
  {
    ResolveInTwo(g, mounts, p, x + SLASH + q, d);
    ComponentsJoin(x, q);
    OneComponent(x);
    var names := [x] + Components(q);
    assert names[0] == x;
    assert Step(g, mounts, dir, x, d) == Err(e);
  }
}
