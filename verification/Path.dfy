/** The path utilities of kernel/fs/src/path.rs. Strings are sequences of characters. */
module Path {
  import opened Prelude

  const SLASH := "/"

  predicate IsAbsolute(path: string) {
    path != "" && path[0] == '/'
  }

  // ---------------------------------------------------------------------------
  // Components
  // ---------------------------------------------------------------------------

  function FirstSlash(path: string): (i: nat)
    ensures i <= |path| && (i < |path| ==> path[i] == '/')
    ensures forall j :: 0 <= j < i ==> path[j] != '/'
  {
    if path == "" || path[0] == '/' then 0 else 1 + FirstSlash(path[1..])
  }

  /** The pieces between slashes, empty ones included. */
  function Split(path: string): seq<string>
    decreases |path|
  {
    var i := FirstSlash(path);
    if i == |path| then [path] else [path[..i]] + Split(path[i + 1..])
  }

  function NonEmpty(pieces: seq<string>): seq<string> {
    if pieces == [] then []
    else (if pieces[0] == "" then [] else [pieces[0]]) + NonEmpty(pieces[1..])
  }

  function Components(path: string): seq<string> {
    NonEmpty(Split(path))
  }

  /** A slash separates: the components on its two sides are independent. */
  lemma {:induction false} ComponentsJoin(a: string, b: string)
    ensures Components(a + SLASH + b) == Components(a) + Components(b)
    decreases |a|
  {
    var i, all := FirstSlash(a), a + SLASH + b;
    FirstSlashJoin(a, b);
    if i == |a| {
      SplitsAt(all, a, b);
      LastPiece(a);
    } else {
      var head, rest := a[..i], a[i + 1..];
      assert a == head + SLASH + rest;
      ComponentsJoin(rest, b);
      SplitsAt(a, head, rest);
      SplitsAt(all, head, rest + SLASH + b);
      Regroup(NonEmpty([head]), Components(rest), Components(b));
    }
  }

  lemma Regroup(a: seq<string>, b: seq<string>, c: seq<string>)
    ensures a + (b + c) == (a + b) + c
  {
  }

  /** The first slash splits off the first piece. */
  lemma SplitsAt(path: string, head: string, rest: string)
    requires path == head + SLASH + rest && FirstSlash(path) == |head|
    ensures Components(path) == NonEmpty([head]) + Components(rest)
  {
    SplitUnfolds(path, head, rest);
    SplitHead(head, Split(rest));
  }

  lemma SplitUnfolds(path: string, head: string, rest: string)
    requires path == head + SLASH + rest && FirstSlash(path) == |head|
    ensures Split(path) == [head] + Split(rest)
  {
    assert path[..|head|] == head && path[|head| + 1..] == rest;
  }

  lemma LastPiece(path: string)
    requires FirstSlash(path) == |path|
    ensures Components(path) == NonEmpty([path])
  {
  }

  lemma SplitHead(piece: string, rest: seq<string>)
    ensures NonEmpty([piece] + rest) == NonEmpty([piece]) + NonEmpty(rest)
  {
    assert ([piece] + rest)[1..] == rest;
    OnePiece(piece);
  }

  lemma OnePiece(piece: string)
    ensures NonEmpty([piece]) == if piece == "" then [] else [piece]
  {
    assert [piece][1..] == [];
  }

  lemma {:induction false} FirstSlashJoin(a: string, b: string)
    ensures FirstSlash(a + SLASH + b) == FirstSlash(a)
  {
    if a != "" && a[0] != '/' {
      FirstSlashJoin(a[1..], b);
      assert (a + SLASH + b)[1..] == a[1..] + SLASH + b;
    }
  }

  /** A component is a non-empty string without slashes. */
  predicate IsComponent(c: string) {
    c != "" && '/' !in c
  }

  lemma {:induction false} ComponentsAreNames(path: string)
    ensures forall c :: c in Components(path) ==> IsComponent(c)
    decreases |path|
  {
    var i := FirstSlash(path);
    var head := path[..i];
    OnePiece(head);
    if i < |path| {
      assert path == head + SLASH + path[i + 1..];
      SplitsAt(path, head, path[i + 1..]);
      ComponentsAreNames(path[i + 1..]);
    } else {
      assert head == path;
      LastPiece(path);
    }
  }

  /** The absolute path with these components. */
  function Join(names: seq<string>): string {
    if names == [] then "" else SLASH + names[0] + Join(names[1..])
  }

  lemma OneComponent(c: string)
    requires '/' !in c
    ensures Components(c) == if c == "" then [] else [c]
  {
    LastPiece(c);
    OnePiece(c);
  }

  lemma LeadingSlash(path: string)
    ensures Components(SLASH + path) == Components(path)
  {
    OneComponent("");
    ComponentsJoin("", path);
    assert "" + SLASH == SLASH;
  }

  /** Splitting undoes joining. */
  lemma {:induction false} ComponentsOfJoin(names: seq<string>)
    requires forall c :: c in names ==> IsComponent(c)
    ensures Components(Join(names)) == names
  {
    if names == [] {
      OneComponent("");
    } else {
      var c, rest := names[0], names[1..];
      assert c in names && forall x :: x in rest ==> x in names;
      ComponentsOfJoin(rest);
      JoinIs(names);
      LeadingSlash(c + Join(rest));
      OneComponent(c);
      JoinAfter(c, rest);
    }
  }

  lemma JoinIs(names: seq<string>)
    requires names != []
    ensures Join(names) == SLASH + (names[0] + Join(names[1..]))
  {
  }

  /** A joined path adds its components to whatever comes before. */
  lemma JoinAfter(c: string, names: seq<string>)
    ensures Components(c + Join(names)) == Components(c) + Components(Join(names))
  {
    if names == [] {
      assert c + Join(names) == c;
      OneComponent("");
    } else {
      JoinIs(names);
      var tail := names[0] + Join(names[1..]);
      LeadingSlash(tail);
      assert c + (SLASH + tail) == c + SLASH + tail;
      ComponentsJoin(c, tail);
    }
  }

  // ---------------------------------------------------------------------------
  // Mount points
  // ---------------------------------------------------------------------------

  /** The mount point is the path, or a prefix of it ending where a component ends. */
  predicate Matches(path: string, mp: string) {
    mp == SLASH || path == mp || (mp <= path && |mp| < |path| && path[|mp|] == '/')
  }

  // Which mount points lie above a path, by components

  ghost predicate AllNames(names: seq<string>) {
    forall i :: 0 <= i < |names| ==> IsComponent(names[i])
  }

  /** The absolute path with these components and no slash more than it needs. */
  function PathOf(names: seq<string>): string {
    if names == [] then SLASH else Join(names)
  }

  lemma {:induction false} JoinConcat(a: seq<string>, b: seq<string>)
    ensures Join(a + b) == Join(a) + Join(b)
  {
    if a == [] {
      assert a + b == b;
    } else {
      JoinConcat(a[1..], b);
      assert (a + b)[0] == a[0] && (a + b)[1..] == a[1..] + b;
    }
  }

  lemma JoinInTwo(names: seq<string>, i: nat)
    requires i <= |names|
    ensures Join(names) == Join(names[..i]) + Join(names[i..])
  {
    assert names == names[..i] + names[i..];
    JoinConcat(names[..i], names[i..]);
  }

  /** A joined path has its slashes exactly where a prefix of the components ends. */
  lemma {:induction false} SlashesOfJoin(names: seq<string>, k: nat)
    requires AllNames(names) && k < |Join(names)| && Join(names)[k] == '/'
    ensures exists i: nat :: i < |names| && k == |Join(names[..i])|
  {
    var c, rest := names[0], names[1..];
    JoinIs(names);
    if k == 0 {
      assert k == |Join(names[..0])|;
    } else {
      assert Join(names)[1..|c| + 1] == c && forall x :: 0 <= x < |c| ==> Join(names)[x + 1] == c[x] != '/';
      SlashesOfJoin(rest, k - 1 - |c|);
      var i: nat :| i < |rest| && k - 1 - |c| == |Join(rest[..i])|;
      assert names[..i + 1][0] == c && names[..i + 1][1..] == rest[..i];
      JoinIs(names[..i + 1]);
      assert k == |Join(names[..i + 1])|;
    }
  }

  /** The mount point is the path of a leading part of the components. */
  ghost predicate LiesAbove(mp: string, names: seq<string>) {
    exists i: nat :: 0 < i <= |names| && mp == Join(names[..i])
  }

  lemma PrefixMatches(names: seq<string>, i: nat)
    requires AllNames(names) && 0 < i <= |names|
    ensures Matches(PathOf(names), Join(names[..i]))
  {
    if i == |names| {
      assert names[..i] == names;
    } else {
      JoinInTwo(names, i);
      JoinIs(names[i..]);
    }
  }

  lemma MatchLiesAbove(names: seq<string>, mp: string)
    requires AllNames(names) && names != [] && Matches(Join(names), mp) && mp != SLASH && mp != ""
    ensures LiesAbove(mp, names)
  {
    var path := Join(names);
    if path == mp {
      assert names[..|names|] == names;
    } else {
      SlashesOfJoin(names, |mp|);
      var i: nat :| i < |names| && |mp| == |Join(names[..i])|;
      JoinInTwo(names, i);
      assert mp == path[..|mp|] == Join(names[..i]);
    }
  }

  /** Which strings match a path without superfluous slashes: the root, the empty string, and the paths of the
      leading parts of its components. */
  lemma MatchesIff(names: seq<string>, mp: string)
    requires AllNames(names)
    ensures Matches(PathOf(names), mp) <==> mp == SLASH || mp == "" || LiesAbove(mp, names)
  {
    if names != [] {
      JoinIs(names);
      if Matches(Join(names), mp) && mp != SLASH && mp != "" {
        MatchLiesAbove(names, mp);
      }
    }
    if LiesAbove(mp, names) {
      var i: nat :| 0 < i <= |names| && mp == Join(names[..i]);
      PrefixMatches(names, i);
    }
  }

  /** A mount point given by components matches exactly the paths whose components it starts. */
  lemma MatchesIffPrefix(names: seq<string>, above: seq<string>)
    requires AllNames(names) && AllNames(above) && above != []
    ensures Matches(PathOf(names), Join(above)) <==> above <= names
  {
    MatchesIff(names, Join(above));
    JoinIs(above);
    assert |Join(above)| > 1;
    ComponentsOfJoin(above);
    if above <= names {
      assert names[..|above|] == above;
    } else if LiesAbove(Join(above), names) {
      var i: nat :| 0 < i <= |names| && Join(above) == Join(names[..i]);
      ComponentsOfJoin(names[..i]);
    }
  }

  /** The best of the mount points: none matches, or it matches and is as long as any that does. */
  ghost predicate IsLongest(path: string, mps: set<string>, best: Option<string>) {
    match best
    case None => forall mp :: mp in mps ==> !Matches(path, mp)
    case Some(b) => b in mps && Matches(path, b) && forall mp :: mp in mps && Matches(path, mp) ==> |mp| <= |b|
  }

  ghost function ToSet(s: seq<string>): set<string> {
    set x | x in s
  }

  method LongestPrefixMatch(path: string, mountPoints: seq<string>) returns (best: Option<string>)
    ensures IsLongest(path, ToSet(mountPoints), best)
  {
    best := None;
    for i := 0 to |mountPoints|
      invariant IsLongest(path, ToSet(mountPoints[..i]), best)
    {
      var mp := mountPoints[i];
      assert ToSet(mountPoints[..i + 1]) == ToSet(mountPoints[..i]) + {mp};
      if Matches(path, mp) && (best == None || |mp| > |best.value|) {
        best := Some(mp);
      }
    }
    assert mountPoints[..|mountPoints|] == mountPoints;
  }

  /** For an absolute path the best mount point depends on the set of mount points only, so not on the order
      they are visited in. */
  lemma LongestIsUnique(path: string, mps: set<string>, a: Option<string>, b: Option<string>)
    requires IsAbsolute(path) && IsLongest(path, mps, a) && IsLongest(path, mps, b)
    ensures a == b
  {
    if a.Some? && b.Some? {
      MatchIsPrefix(path, a.value);
      MatchIsPrefix(path, b.value);
    }
  }

  lemma MatchIsPrefix(path: string, mp: string)
    requires IsAbsolute(path) && Matches(path, mp)
    ensures |mp| <= |path| && mp == path[..|mp|]
  {
  }

  /** A relative path can have two best mount points. */
  lemma RelativeMatchIsAmbiguous()
    ensures IsLongest("x/y", {"/", "x"}, Some("/")) && IsLongest("x/y", {"/", "x"}, Some("x"))
  {
    assert "x" <= "x/y" && "x/y"[1] == '/';
  }

  /** The remainder below a mount point. */
  function StripMountPrefix(path: string, mount: string): string
    requires mount == SLASH || |mount| <= |path|
  {
    if mount == SLASH then (if IsAbsolute(path) then path[1..] else path)
    else if |path| == |mount| then ""
    else path[|mount| + 1..]
  }

  /** No component is lost: the mount point's, then the remainder's, are the path's. */
  lemma MountLosesNothing(path: string, mount: string)
    requires Matches(path, mount)
    ensures mount == SLASH || |mount| <= |path|
    ensures Components(path) == Components(mount) + Components(StripMountPrefix(path, mount))
  {
    OneComponent("");
    var rest := StripMountPrefix(path, mount);
    if mount == SLASH {
      RootHasNoComponents();
      if IsAbsolute(path) {
        assert path == SLASH + rest;
        LeadingSlash(rest);
      }
    } else if path != mount {
      assert path == mount + SLASH + rest;
      ComponentsJoin(mount, rest);
    }
  }

  lemma RootHasNoComponents()
    ensures Components(SLASH) == []
  {
    OneComponent("");
    LeadingSlash("");
    assert SLASH + "" == SLASH;
  }
}
