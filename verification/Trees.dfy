/** How far the effect of a command on the device's tree reaches. */
module Trees {
  import opened Bytes
  import opened Cache
  import opened Device
  import opened Optional
  import opened Paths

  // ----- spellings of a path -----

  lemma CanonicalShape(p: string)
    requires Canonical(p)
    ensures p != "" && p[0] == '/' && (p == "/" || p[|p| - 1] != '/')
    decreases |p|
  {
    var i := LastIndexOf(p, '/');
    if p != "/" && i > 0 {
      CanonicalShape(p[..i]);
    }
  }

  lemma ParentIsCanonical(p: string)
    requires Canonical(p)
    ensures Canonical(ParentWfxDir(p)) && |ParentWfxDir(p)| <= |p|
    ensures p != "/" ==> |ParentWfxDir(p)| < |p| && Beneath(ParentWfxDir(p), p)
  {
    var i := LastIndexOf(p, '/');
    if i > 0 {
      assert p[..i] + "/" <= p;
    }
  }

  /** A canonical path leads to itself. */
  lemma {:induction false} ResolveCanonical(p: string)
    requires Canonical(p)
    ensures Resolve(p) == p
    decreases |p|
  {
    var i := LastIndexOf(p, '/');
    if p != "/" {
      var leaf := p[i + 1..];
      assert p == p[..i] + "/" + leaf;
      if i > 0 {
        ResolveCanonical(p[..i]);
        CanonicalShape(p[..i]);
      }
    }
  }

  lemma NameBelow(dir: string, leaf: string)
    requires Canonical(dir) && IsName(leaf) && '/' !in leaf
    ensures Canonical(JoinWfxPath(dir, leaf))
  {
    CanonicalShape(dir);
    var d := if dir == "/" then "" else dir;
    var p := d + ['/'] + leaf;
    LastIndexSplit(d, '/', leaf);
    assert p[..|d|] == d && p[|d| + 1..] == leaf;
    assert JoinWfxPath(dir, leaf) == p;
  }

  /** Every spelling leads to a canonical path. */
  lemma {:induction false} ResolveIsCanonical(p: string)
    ensures Canonical(Resolve(p))
    decreases |p|
  {
    hide Canonical, LastIndexOf, JoinWfxPath, ParentWfxDir;
    RootIsCanonical();
    if p != "" {
      var i := LastIndexOf(p, '/');
      var dir, leaf := if i < 0 then "/" else Resolve(p[..i]), p[i + 1..];
      if i >= 0 {
        ResolveIsCanonical(p[..i]);
      }
      ParentIsCanonical(dir);
      LeafHasNoSlash(p);
      if IsName(leaf) {
        NameBelow(dir, leaf);
      }
    }
  }

  lemma RootIsCanonical()
    ensures Canonical("/")
  {
  }

  lemma LeafHasNoSlash(p: string)
    ensures '/' !in p[LastIndexOf(p, '/') + 1..]
  {
    var i := LastIndexOf(p, '/') + 1;
    forall k | 0 <= k < |p[i..]|
      ensures p[i..][k] != '/'
    {
      assert p[i..][k] == p[i + k];
    }
  }

  /** A trailing slash, or a trailing dot, leads to the same place. */
  lemma SpellingsMeet(p: string)
    ensures Resolve(p + "/") == Resolve(p) && Resolve(p + "/.") == Resolve(p)
  {
    LastIndexSplit(p, '/', "");
    assert p + ['/'] + "" == p + "/" && (p + "/")[..|p|] == p && (p + "/")[|p| + 1..] == "";
    LastIndexSplit(p, '/', ".");
    assert p + ['/'] + "." == p + "/." && (p + "/.")[..|p|] == p && (p + "/.")[|p| + 1..] == ".";
  }

  lemma CoversChain(p: string, q: string, r: string)
    requires Covers(p, q) && Covers(q, r)
    ensures Covers(p, r)
  {
    if q != p && r != q {
      assert p + "/" <= q <= r;
    }
  }

  /** What lies at or under a path is the path itself and what is in a directory that does. */
  lemma BeneathIsAncestry(p: string, q: string)
    requires Canonical(p) && Canonical(q)
    ensures Beneath(p, q) <==> q == p || (q != "/" && Beneath(p, ParentWfxDir(q)))
  {
    var i := LastIndexOf(q, '/');
    CanonicalShape(p);
    CanonicalShape(q);
    if q != "/" && p != "/" && q != p {
      if p + "/" <= q {
        assert q[|p|] == '/' && i >= |p|;
        if i > |p| {
          assert p + "/" <= q[..i];
        } else {
          assert q[..i] == p;
        }
      }
      if i > 0 && Covers(p, q[..i]) {
        assert q[..i] + "/" <= q;
        CoversChain(p, q[..i], q);
      }
    }
  }

  // ----- how far a command reaches -----

  /** Two nodes that a listing cannot tell apart: a directory's date is not compared. */
  predicate Alike(a: Node, b: Node) {
    a == b || (a.Dir? && b.Dir? && a.mode == b.mode)
  }

  predicate AlikeAt(t: Tree, t': Tree, q: string) {
    (q in t <==> q in t') && (q in t ==> Alike(t[q], t'[q]))
  }

  /** Only what is at or under one of the two paths differs. */
  ghost predicate Confined(t: Tree, t': Tree, p1: string, p2: string) {
    forall q :: !Beneath(p1, q) && !Beneath(p2, q) ==> AlikeAt(t, t', q)
  }

  /** The place a command is about, or the two. */
  function First(c: Command): string {
    match c
    case Rm(p) => Resolve(p)
    case RmTree(p) => Resolve(p)
    case Mkdir(p) => Resolve(p)
    case Mv(from, to) => Resolve(from)
    case Cp(from, to) => Resolve(to)
    case Touch(p, _) => Resolve(p)
  }

  function Second(c: Command): string {
    if c.Mv? then Resolve(c.to) else First(c)
  }

  /** mkdir -p has only the last directory of its path to make. */
  predicate ParentIsThere(c: Command, t: Tree) {
    c.Mkdir? ==> HasDir(t, ParentWfxDir(Resolve(c.path)))
  }

  lemma DestinationIsBeneath(t: Tree, from: string, to: string)
    requires Canonical(to)
    ensures Beneath(to, Destination(t, from, to))
  {
    CanonicalShape(to);
    if HasDir(t, to) && to != "/" {
      assert to + "/" <= to + "/" + BaseOf(from);
    }
  }

  lemma MoveIsConfined(t: Tree, from: string, to: string, target: string, q: string)
    requires Beneath(to, target) && !Beneath(from, q) && !Beneath(to, q)
    ensures q in MoveTree(t, from, target) <==> q in t
    ensures q in t ==> MoveTree(t, from, target)[q] == t[q]
  {
    if q in GraftKeys(t, from, target) {
      GraftOrigin(t, from, target, q);
    }
    if Covers(target, q) {
      CoversChain(to, target, q);
    }
  }

  /** Nothing but what lies at or under the places its paths lead to is changed by a command. */
  lemma RanIsConfined(c: Command, t: Tree, m: Manner, q: string)
    requires ParentIsThere(c, t) && !Beneath(First(c), q) && !Beneath(Second(c), q)
    ensures q in Ran(c, t, m) <==> q in t
    ensures q in t ==> Ran(c, t, m)[q] == t[q]
  {
    hide Refuses, Ignores, Resolve, MoveTree, Destination, MakeDirs, Canonical;
    match c
    case Mv(from, to) =>
      ResolveIsCanonical(to);
      DestinationIsBeneath(t, Resolve(from), Resolve(to));
      MoveIsConfined(t, Resolve(from), Resolve(to), Destination(t, Resolve(from), Resolve(to)), q);
    case Cp(from, to) =>
      ResolveIsCanonical(to);
      DestinationIsBeneath(t, Resolve(from), Resolve(to));
    case Mkdir(p) =>
      OnlyOneToMake(t, Resolve(p), m.mode, m.now);
    case _ =>
  }

  lemma OnlyOneToMake(t: Tree, p: string, mode: int, now: int)
    requires HasDir(t, ParentWfxDir(p))
    ensures MakeDirs(t, p, mode, now) == if p in t then t else t[p := Dir(mode, now)]
  {
  }

  lemma RetimedIsAlike(t: Tree, dirTimes: map<string, int>)
    ensures forall q :: AlikeAt(t, Retimed(t, dirTimes), q)
  {
  }

  /** The same with the dates of directories changed on the way. */
  lemma EffectIsConfined(commandLine: string, c: Command, t: Tree, m: Manner)
    requires Meaning(commandLine) == Some(c) && ParentIsThere(c, t)
    ensures Confined(t, TreeAfter(commandLine, t, m), First(c), Second(c))
  {
    hide Ran, Meaning, First, Second;
    RetimedIsAlike(Ran(c, t, m), m.dirTimes);
    forall q | !Beneath(First(c), q) && !Beneath(Second(c), q)
      ensures AlikeAt(t, TreeAfter(commandLine, t, m), q)
    {
      RanIsConfined(c, t, m, q);
      assert AlikeAt(Ran(c, t, m), TreeAfter(commandLine, t, m), q);
    }
  }
}
