/**
 What the tree of names is for (fs/dir.c): the path printed by pwd leads back to the directory and is the only one
 that does, and lsr from the root prints every file and directory exactly once.
 */
module NamePaths {
  import opened DirLogs
  import opened NameTrees

  // ---- pwd

  /** The name of the first entry of directory `p` that carries inode number `k`. */
  function NameIn(t: Tree, p: int, k: int): Name
  {
    if IsDir(t, p) && FirstNr(t.nodes[p].es, k) < |t.nodes[p].es| then t.nodes[p].es[FirstNr(t.nodes[p].es, k)].name else []
  }

  /** The names printed by testfs_pwd. */
  ghost function PathTo(t: Tree, depth: seq<nat>, k: int): seq<Name>
    requires Rooted(t, depth) && IsDir(t, k)
    decreases depth[k]
  {
    var p := Parent(t, k);
    ParentNames(t, depth, k);
    if p == k then [] else PathTo(t, depth, p) + [NameIn(t, p, k)]
  }

  lemma PathUnfolds(t: Tree, depth: seq<nat>, k: int)
    requires Rooted(t, depth) && IsDir(t, k)
    ensures var p := Parent(t, k);
            IsDir(t, p) && PathTo(t, depth, k) == if p == k then [] else PathTo(t, depth, p) + [NameIn(t, p, k)]
  {
    ParentNames(t, depth, k);
  }

  /** The directory or file reached from directory `k` by looking up one name after the other; negative if none. */
  function Walk(t: Tree, k: int, path: seq<Name>): int
  {
    if path == [] then k else At(t, Walk(t, k, path[..|path| - 1]), path[|path| - 1])
  }

  lemma DirHasDots(t: Tree, depth: seq<nat>, k: int)
    requires Rooted(t, depth) && IsDir(t, k)
    ensures HasDots(t, k)
  {
  }

  /** The entry that pwd finds for a directory in its parent is its name, not "." or "..": the assert of line 259 holds. */
  lemma FoundIsChild(t: Tree, depth: seq<nat>, k: int)
    requires Rooted(t, depth) && IsDir(t, k) && k != 0
    ensures var p := Parent(t, k);
            IsDir(t, p) && Child(t, p, FirstNr(t.nodes[p].es, k), k) && !Dots(NameIn(t, p, k))
  {
    hide Rooted, Lookup;
    var p := Parent(t, k);
    ParentNames(t, depth, k);
    var i :| Child(t, p, i, k);
    var es := t.nodes[p].es;
    var f := FirstNr(es, k);
    assert f <= i;
    DirHasDots(t, depth, p);
    LookupAt(es, f);
    ParentNames(t, depth, p);
    RootIsTop(t, depth);
  }

  lemma RootIsTop(t: Tree, depth: seq<nat>)
    requires Rooted(t, depth)
    ensures Parent(t, 0) == 0 && depth[0] == 0 && IsDir(t, 0) && |depth| == |t.nodes|
  {
  }

  /** Looking up, from the root, the names that pwd prints leads to the directory; there are `depth` of them. */
  lemma {:induction false} PwdLeadsBack(t: Tree, depth: seq<nat>, k: int)
    requires Rooted(t, depth) && IsDir(t, k)
    ensures Walk(t, 0, PathTo(t, depth, k)) == k && |PathTo(t, depth, k)| == depth[k]
    ensures forall n | n in PathTo(t, depth, k) :: !Dots(n)
    decreases depth[k]
  {
    hide Rooted, Lookup, Parent, At;
    ParentNames(t, depth, k);
    RootIsTop(t, depth);
    if k != 0 {
      var p := Parent(t, k);
      PwdLeadsBack(t, depth, p);
      FoundIsChild(t, depth, k);
      var path := PathTo(t, depth, k);
      assert path[..|path| - 1] == PathTo(t, depth, p);
      DirHasDots(t, depth, p);
      AtEntry(t, p, FirstNr(t.nodes[p].es, k));
    }
  }

  lemma AtEntry(t: Tree, k: int, i: int)
    requires HasDots(t, k) && 0 <= i < |t.nodes[k].es| && t.nodes[k].es[i].nr >= 0
    ensures At(t, k, t.nodes[k].es[i].name) == t.nodes[k].es[i].nr
  {
    LookupAt(t.nodes[k].es, i);
  }

  lemma EntryAt(t: Tree, k: int, name: Name)
    requires At(t, k, name) >= 0
    ensures IsDir(t, k)
    ensures exists i :: 0 <= i < |t.nodes[k].es| && Live(t.nodes[k].es[i], name) && t.nodes[k].es[i].nr == At(t, k, name)
  {
    LookupFrom(t.nodes[k].es, name);
  }

  /** No other path without "." and ".." leads there. */
  lemma {:induction false} PathIsPwd(t: Tree, depth: seq<nat>, path: seq<Name>)
    requires Rooted(t, depth) && IsDir(t, Walk(t, 0, path)) && forall n | n in path :: !Dots(n)
    ensures PathTo(t, depth, Walk(t, 0, path)) == path
    decreases |path|
  {
    hide Rooted, Lookup, Parent, At, IsDir, NameIn, PathTo;
    if path == [] {
      RootIsTop(t, depth);
      PathUnfolds(t, depth, 0);
    } else {
      var m := |path| - 1;
      var p, k := Walk(t, 0, path[..m]), Walk(t, 0, path);
      LastStep(t, depth, p, path[m], k);
      PathIsPwd(t, depth, path[..m]);
      PathUnfolds(t, depth, k);
      assert path == path[..m] + [path[m]];
    }
  }

  /** The directory of a name other than "." and ".." is the child, under that name, of where it was looked up. */
  lemma LastStep(t: Tree, depth: seq<nat>, p: int, name: Name, k: int)
    requires Rooted(t, depth) && k == At(t, p, name) && IsDir(t, k) && !Dots(name)
    ensures IsDir(t, p) && Parent(t, k) == p && k != p && NameIn(t, p, k) == name
  {
    hide Rooted, Lookup, Parent, At;
    EntryAt(t, p, name);
    var i :| 0 <= i < |t.nodes[p].es| && Live(t.nodes[p].es[i], name) && t.nodes[p].es[i].nr == k;
    ChildHasOnePlace(t, depth, p, i, k);
    ParentNames(t, depth, k);
  }

  lemma ChildHasOnePlace(t: Tree, depth: seq<nat>, p: int, i: int, k: int)
    requires Rooted(t, depth) && Child(t, p, i, k) && IsDir(t, k)
    ensures k != 0 && Parent(t, k) == p && FirstNr(t.nodes[p].es, k) == i
  {
    hide Lookup;
    ChildIsThere(t, depth, p, i, k);
    FoundIsChild(t, depth, k);
  }

  /** The path of a directory does not depend on where one is. */
  lemma {:induction false} PathWherever(t: Tree, u: Tree, depth: seq<nat>, k: int)
    requires Rooted(t, depth) && Rooted(u, depth) && u.nodes == t.nodes && IsDir(t, k)
    ensures PathTo(u, depth, k) == PathTo(t, depth, k)
    decreases depth[k]
  {
    hide Rooted, Lookup;
    RootIsTop(t, depth);
    ParentNames(t, depth, k);
    if k != 0 {
      PathWherever(t, u, depth, Parent(t, k));
    }
  }

  /** After cd, pwd prints the path before, without its last name for "..", or with the new name at its end. */
  lemma CdMovesThePath(t: Tree, depth: seq<nat>, name: Name, nr: nat, u: Tree)
    requires Rooted(t, depth) && Succeeds(t, Cd(name), nr, u)
    ensures Rooted(u, depth) && IsDir(t, t.cur)
    ensures var before, after := PathTo(t, depth, t.cur), PathTo(u, depth, u.cur);
            if name == DOT then after == before
            else if name == DOTDOT then before == if t.cur == 0 then after else after + [NameIn(t, u.cur, t.cur)]
            else after == before + [name]
  {
    hide Rooted, Lookup, PathTo, NameIn;
    CurIsDir(t, depth);
    CdKeepsTree(t, depth, u.cur);
    PathWherever(t, u, depth, u.cur);
    DirHasDots(t, depth, t.cur);
    if name == DOTDOT {
      PathUnfolds(t, depth, t.cur);
      ParentNames(t, depth, t.cur);
    } else if name != DOT {
      LastStep(t, depth, t.cur, name, u.cur);
      PathUnfolds(t, depth, u.cur);
    }
  }

  // ---- lsr

  /** The inodes further from the root than inode `k`. */
  ghost function Deeper(t: Tree, depth: seq<nat>, k: int): set<int>
    requires |depth| == |t.nodes| && 0 <= k < |depth|
  {
    set c: int | 0 <= c < |depth| && depth[c] > depth[k]
  }

  lemma ChildIsDeeper(t: Tree, depth: seq<nat>, k: int, i: int, c: int)
    requires Rooted(t, depth) && Child(t, k, i, c)
    ensures ChildOk(t, depth, k, c) && Deeper(t, depth, c) < Deeper(t, depth, k)
  {
    hide At;
    ChildIsThere(t, depth, k, i, c);
    assert c in Deeper(t, depth, k) && c !in Deeper(t, depth, c);
  }

  /** The entries printed by testfs_ls, from entry `i` of directory `k` on. */
  ghost function Ls(t: Tree, depth: seq<nat>, k: int, i: nat, recursive: bool): seq<Dirent>
    requires Rooted(t, depth) && IsDir(t, k) && i <= |t.nodes[k].es|
    decreases Deeper(t, depth, k), |t.nodes[k].es| - i
  {
    var es := t.nodes[k].es;
    if i == |es| then []
    else if es[i].nr < 0 then Ls(t, depth, k, i + 1, recursive)
    else
      var below :=
        if recursive && IsDir(t, es[i].nr) && !Dots(es[i].name) then
          ChildIsDeeper(t, depth, k, i, es[i].nr);
          Ls(t, depth, es[i].nr, 0, recursive)
        else [];
      [es[i]] + below + Ls(t, depth, k, i + 1, recursive)
  }

  lemma LsUnfolds(t: Tree, depth: seq<nat>, k: int, i: nat, recursive: bool)
    requires Rooted(t, depth) && IsDir(t, k) && i <= |t.nodes[k].es|
    ensures var es := t.nodes[k].es;
            if i == |es| then Ls(t, depth, k, i, recursive) == []
            else if es[i].nr < 0 then Ls(t, depth, k, i, recursive) == Ls(t, depth, k, i + 1, recursive)
            else if recursive && IsDir(t, es[i].nr) && !Dots(es[i].name) then
              Ls(t, depth, k, i, recursive) ==
                [es[i]] + Ls(t, depth, es[i].nr, 0, recursive) + Ls(t, depth, k, i + 1, recursive)
            else Ls(t, depth, k, i, recursive) == [es[i]] + Ls(t, depth, k, i + 1, recursive)
  {
  }

  /** How often inode `c` is printed under a name of its own. */
  function Times(lines: seq<Dirent>, c: int): nat
  {
    if lines == [] then 0
    else Times(lines[..|lines| - 1], c) + if lines[|lines| - 1].nr == c && !Dots(lines[|lines| - 1].name) then 1 else 0
  }

  lemma {:induction false} TimesConcat(a: seq<Dirent>, b: seq<Dirent>, c: int)
    ensures Times(a + b, c) == Times(a, c) + Times(b, c)
    decreases |b|
  {
    if b == [] {
      assert a + b == a;
    } else {
      assert (a + b)[..|a + b| - 1] == a + b[..|b| - 1];
      TimesConcat(a, b[..|b| - 1], c);
    }
  }

  predicate Used(t: Tree, c: int)
  {
    0 <= c < |t.nodes| && t.nodes[c] != Free
  }

  /** The directory that holds the name of inode `c`. */
  ghost function Owner(t: Tree, c: int): int
    requires Named(t, c)
  {
    var k :| exists i :: Child(t, k, i, c);
    k
  }

  lemma OwnerIs(t: Tree, depth: seq<nat>, c: int)
    requires Rooted(t, depth) && Used(t, c) && c != 0
    ensures Named(t, c) && Used(t, Owner(t, c)) && ChildOk(t, depth, Owner(t, c), c)
    ensures forall k, i | Child(t, k, i, c) :: k == Owner(t, c)
    ensures exists i :: Child(t, Owner(t, c), i, c)
  {
    hide Child, At;
    assert Named(t, c);
    var o := Owner(t, c);
    var i :| Child(t, o, i, c);
    ChildIsThere(t, depth, o, i, c);
  }

  /** Inode `m` is `c` or lies on the way from the root to it. */
  ghost predicate Above(t: Tree, depth: seq<nat>, m: int, c: int)
    requires Rooted(t, depth) && Used(t, c)
    decreases depth[c]
  {
    c == m || (c != 0 && (OwnerIs(t, depth, c); Above(t, depth, m, Owner(t, c))))
  }

  lemma {:induction false} AboveIsHigher(t: Tree, depth: seq<nat>, m: int, c: int)
    requires Rooted(t, depth) && Used(t, c) && Above(t, depth, m, c)
    ensures Used(t, m) && depth[m] <= depth[c] && (depth[m] == depth[c] ==> m == c)
    decreases depth[c]
  {
    hide Rooted, Owner;
    RootIsTop(t, depth);
    if c != m {
      OwnerIs(t, depth, c);
      AboveIsHigher(t, depth, m, Owner(t, c));
    }
  }

  /** Of two inodes at one distance from the root only one can lie above `c`. */
  lemma {:induction false} OneAbove(t: Tree, depth: seq<nat>, m: int, l: int, c: int)
    requires Rooted(t, depth) && Used(t, c) && Above(t, depth, m, c) && Above(t, depth, l, c)
    requires 0 <= m < |depth| && 0 <= l < |depth| && depth[m] == depth[l]
    ensures m == l
    decreases depth[c]
  {
    hide Rooted, Owner;
    RootIsTop(t, depth);
    AboveIsHigher(t, depth, m, c);
    AboveIsHigher(t, depth, l, c);
    if c != m && c != l {
      OwnerIs(t, depth, c);
      OneAbove(t, depth, m, l, Owner(t, c));
    }
  }

  lemma {:induction false} RootIsAbove(t: Tree, depth: seq<nat>, c: int)
    requires Rooted(t, depth) && Used(t, c)
    ensures Above(t, depth, 0, c)
    decreases depth[c]
  {
    hide Rooted, Owner;
    RootIsTop(t, depth);
    if c != 0 {
      OwnerIs(t, depth, c);
      RootIsAbove(t, depth, Owner(t, c));
    }
  }

  /** Some child of directory `k`, from entry `i` on, lies above `c`. */
  ghost predicate Below(t: Tree, depth: seq<nat>, k: int, i: int, c: int)
    requires Rooted(t, depth) && Used(t, c)
  {
    exists j, m :: j >= i && Child(t, k, j, m) && Above(t, depth, m, c)
  }

  /** What lies below an inode is what it is above, but for itself. */
  lemma {:induction false} BelowIff(t: Tree, depth: seq<nat>, k: int, c: int)
    requires Rooted(t, depth) && Used(t, c) && Used(t, k)
    ensures Below(t, depth, k, 0, c) <==> Above(t, depth, k, c) && k != c
    decreases depth[c]
  {
    hide Rooted, Owner, Child;
    RootIsTop(t, depth);
    if Below(t, depth, k, 0, c) {
      var j, m :| j >= 0 && Child(t, k, j, m) && Above(t, depth, m, c);
      ChildPlaced(t, depth, k, j, m);
      AboveIsHigher(t, depth, m, c);
      AboveTrans(t, depth, k, m, c);
    }
    if Above(t, depth, k, c) && k != c {
      OwnerIs(t, depth, c);
      var o := Owner(t, c);
      if o == k {
        var i :| Child(t, o, i, c);
        ChildPlaced(t, depth, o, i, c);
        assert Above(t, depth, c, c);
      } else {
        BelowIff(t, depth, k, o);
        var j, m :| j >= 0 && Child(t, k, j, m) && Above(t, depth, m, o);
        assert Above(t, depth, m, c);
      }
    }
  }

  lemma ChildPlaced(t: Tree, depth: seq<nat>, k: int, i: int, c: int)
    requires Rooted(t, depth) && Child(t, k, i, c)
    ensures ChildOk(t, depth, k, c) && Used(t, c) && Used(t, k) && IsDir(t, k) && i >= 0
    ensures Named(t, c) && Owner(t, c) == k
  {
    ChildIsThere(t, depth, k, i, c);
    OwnerIs(t, depth, c);
  }

  lemma {:induction false} AboveTrans(t: Tree, depth: seq<nat>, k: int, m: int, c: int)
    requires Rooted(t, depth) && Used(t, c) && Above(t, depth, m, c) && Named(t, m) && Owner(t, m) == k
    ensures c != 0 && Above(t, depth, k, c)
    decreases depth[c]
  {
    hide Rooted, Owner, Named;
    NamedIsNotRoot(t, depth, m);
    if c != 0 {
      OwnerIs(t, depth, c);
      if c != m {
        AboveTrans(t, depth, k, m, Owner(t, c));
      }
    }
  }

  lemma NamedIsNotRoot(t: Tree, depth: seq<nat>, m: int)
    requires Rooted(t, depth) && Named(t, m)
    ensures m != 0
  {
    var k, i :| Child(t, k, i, m);
    ChildIsThere(t, depth, k, i, m);
  }

  /** lsr prints what lies below a directory once, and nothing else under a name of its own. */
  lemma {:induction false} LsrPrints(t: Tree, depth: seq<nat>, k: int, i: nat, c: int)
    requires Rooted(t, depth) && IsDir(t, k) && i <= |t.nodes[k].es| && Used(t, c)
    ensures Times(Ls(t, depth, k, i, true), c) == if Below(t, depth, k, i, c) then 1 else 0
    decreases Deeper(t, depth, k), |t.nodes[k].es| - i
  {
    hide Rooted, Above, Times;
    TimesOfNone(c);
    var es := t.nodes[k].es;
    if i < |es| {
      LsrPrints(t, depth, k, i + 1, c);
      BelowNext(t, depth, k, i, c);
      if Child(t, k, i, es[i].nr) {
        var m := es[i].nr;
        ChildPlaced(t, depth, k, i, m);
        ChildIsDeeper(t, depth, k, i, m);
        BelowIff(t, depth, m, c);
        SelfAbove(t, depth, c);
        FileHasNoneBelow(t, depth, m, c);
        if IsDir(t, m) {
          LsrPrints(t, depth, m, 0, c);
        }
        LsrStep(t, depth, k, i, c);
      } else if es[i].nr >= 0 {
        LsrStep(t, depth, k, i, c);
      }
    }
  }

  lemma SelfAbove(t: Tree, depth: seq<nat>, c: int)
    requires Rooted(t, depth) && Used(t, c)
    ensures Above(t, depth, c, c)
  {
  }

  lemma FileHasNoneBelow(t: Tree, depth: seq<nat>, m: int, c: int)
    requires Rooted(t, depth) && Used(t, c)
    ensures Below(t, depth, m, 0, c) ==> IsDir(t, m)
  {
  }

  lemma TimesOfNone(c: int)
    ensures Times([], c) == 0
  {
  }

  lemma LsrStep(t: Tree, depth: seq<nat>, k: int, i: nat, c: int)
    requires Rooted(t, depth) && IsDir(t, k) && i < |t.nodes[k].es| && t.nodes[k].es[i].nr >= 0
    ensures var m := t.nodes[k].es[i].nr;
            Times(Ls(t, depth, k, i, true), c) ==
              (if m == c && Child(t, k, i, m) then 1 else 0) +
              (if IsDir(t, m) && Child(t, k, i, m) then Times(Ls(t, depth, m, 0, true), c) else 0) +
              Times(Ls(t, depth, k, i + 1, true), c)
  {
    hide Rooted;
    var e, rest := t.nodes[k].es[i], Ls(t, depth, k, i + 1, true);
    var below := if IsDir(t, e.nr) && !Dots(e.name) then Ls(t, depth, e.nr, 0, true) else [];
    TimesConcat([e] + below, rest, c);
    TimesConcat([e], below, c);
    assert [e][..0] == [];
    assert Times([e], c) == if e.nr == c && !Dots(e.name) then 1 else 0;
  }

  /** From entry `i` on: what entry `i` names, or what comes after it, never both. */
  lemma BelowNext(t: Tree, depth: seq<nat>, k: int, i: nat, c: int)
    requires Rooted(t, depth) && IsDir(t, k) && i < |t.nodes[k].es| && Used(t, c)
    ensures var m := t.nodes[k].es[i].nr;
            && (Below(t, depth, k, i, c) <==> (Child(t, k, i, m) && Above(t, depth, m, c)) || Below(t, depth, k, i + 1, c))
            && !(Child(t, k, i, m) && Above(t, depth, m, c) && Below(t, depth, k, i + 1, c))
  {
    hide Rooted, Above;
    var m := t.nodes[k].es[i].nr;
    if Below(t, depth, k, i, c) {
      var j, l :| j >= i && Child(t, k, j, l) && Above(t, depth, l, c);
    }
    if Child(t, k, i, m) && Above(t, depth, m, c) && Below(t, depth, k, i + 1, c) {
      var j, l :| j >= i + 1 && Child(t, k, j, l) && Above(t, depth, l, c);
      Siblings(t, depth, k, i, m, j, l, c);
    }
  }

  lemma Siblings(t: Tree, depth: seq<nat>, k: int, i: int, m: int, j: int, l: int, c: int)
    requires Rooted(t, depth) && Used(t, c) && Child(t, k, i, m) && Child(t, k, j, l)
    requires Above(t, depth, m, c) && Above(t, depth, l, c)
    ensures i == j
  {
    ChildIsThere(t, depth, k, i, m);
    ChildIsThere(t, depth, k, j, l);
    OneAbove(t, depth, m, l, c);
  }

  /** lsr from the root prints every file and directory exactly once under its name, and terminates. */
  lemma LsrPrintsEverythingOnce(t: Tree, depth: seq<nat>, c: int)
    requires Rooted(t, depth) && Used(t, c) && c != 0
    ensures IsDir(t, 0) && Times(Ls(t, depth, 0, 0, true), c) == 1
  {
    hide Rooted;
    RootIsTop(t, depth);
    LsrPrints(t, depth, 0, 0, c);
    RootIsAbove(t, depth, c);
    BelowIff(t, depth, 0, c);
  }

  /** Directory `c` has the line `e`. */
  predicate Holds(t: Tree, c: int, e: Dirent)
  {
    IsDir(t, c) && e.nr >= 0 && e in t.nodes[c].es
  }

  /** A directory below entry `i` of directory `k`, or one that comes after it, has the line `e`. */
  ghost predicate HeldBelow(t: Tree, depth: seq<nat>, k: int, i: int, e: Dirent)
    requires Rooted(t, depth)
  {
    exists c :: Holds(t, c, e) && Used(t, c) && Below(t, depth, k, i, c)
  }

  lemma {:induction false} LsrLines(t: Tree, depth: seq<nat>, k: int, i: nat, e: Dirent)
    requires Rooted(t, depth) && IsDir(t, k) && i <= |t.nodes[k].es|
    ensures e in Ls(t, depth, k, i, true) <==> (e.nr >= 0 && e in t.nodes[k].es[i..]) || HeldBelow(t, depth, k, i, e)
    decreases Deeper(t, depth, k), |t.nodes[k].es| - i
  {
    hide Rooted, Above, Ls, Below;
    LsUnfolds(t, depth, k, i, true);
    var es := t.nodes[k].es;
    if i == |es| {
      NothingAfter(t, depth, k, e);
    } else {
      var m := es[i].nr;
      LsrLines(t, depth, k, i + 1, e);
      HeldNext(t, depth, k, i, e);
      assert es[i..] == [es[i]] + es[i + 1..];
      if Child(t, k, i, m) && IsDir(t, m) {
        ChildIsDeeper(t, depth, k, i, m);
        LsrLines(t, depth, m, 0, e);
        HeldAtOrBelow(t, depth, m, e);
        assert t.nodes[m].es[0..] == t.nodes[m].es;
      } else if Child(t, k, i, m) {
        ChildPlaced(t, depth, k, i, m);
        HeldAtOrBelow(t, depth, m, e);
        FileHoldsNothing(t, depth, m, e);
      }
    }
  }

  lemma NothingAfter(t: Tree, depth: seq<nat>, k: int, e: Dirent)
    requires Rooted(t, depth) && IsDir(t, k)
    ensures !HeldBelow(t, depth, k, |t.nodes[k].es|, e)
  {
  }

  /** A directory at or below inode `m` has the line `e`. */
  ghost predicate HeldAt(t: Tree, depth: seq<nat>, m: int, e: Dirent)
    requires Rooted(t, depth)
  {
    exists c :: Holds(t, c, e) && Used(t, c) && Above(t, depth, m, c)
  }

  lemma HeldNext(t: Tree, depth: seq<nat>, k: int, i: nat, e: Dirent)
    requires Rooted(t, depth) && IsDir(t, k) && i < |t.nodes[k].es|
    ensures var m := t.nodes[k].es[i].nr;
            HeldBelow(t, depth, k, i, e) <==>
            (Child(t, k, i, m) && HeldAt(t, depth, m, e)) || HeldBelow(t, depth, k, i + 1, e)
  {
    hide Rooted, Above, Below, Holds;
    forall c | Used(t, c)
      ensures Below(t, depth, k, i, c) <==>
              (Child(t, k, i, t.nodes[k].es[i].nr) && Above(t, depth, t.nodes[k].es[i].nr, c)) ||
              Below(t, depth, k, i + 1, c)
    {
      BelowNext(t, depth, k, i, c);
    }
  }

  lemma HeldAtOrBelow(t: Tree, depth: seq<nat>, m: int, e: Dirent)
    requires Rooted(t, depth) && Used(t, m)
    ensures HeldAt(t, depth, m, e) <==> Holds(t, m, e) || HeldBelow(t, depth, m, 0, e)
  {
    hide Rooted, Above, Below, Holds;
    SelfAbove(t, depth, m);
    forall c | Used(t, c) ensures Below(t, depth, m, 0, c) <==> Above(t, depth, m, c) && m != c {
      BelowIff(t, depth, m, c);
    }
  }

  lemma FileHoldsNothing(t: Tree, depth: seq<nat>, m: int, e: Dirent)
    requires Rooted(t, depth) && !IsDir(t, m)
    ensures !Holds(t, m, e) && !HeldBelow(t, depth, m, 0, e)
  {
    hide Rooted, Above;
    forall c | Used(t, c) ensures !Below(t, depth, m, 0, c) {
      FileHasNoneBelow(t, depth, m, c);
    }
  }

  /** lsr from the root prints just the lines of all directories, those of "." and ".." too. */
  lemma LsrPrintsAllLines(t: Tree, depth: seq<nat>, e: Dirent)
    requires Rooted(t, depth) && IsDir(t, 0)
    ensures e in Ls(t, depth, 0, 0, true) <==> exists c :: IsDir(t, c) && e.nr >= 0 && e in t.nodes[c].es
  {
    hide Rooted, Above, Below, Ls;
    LsrLines(t, depth, 0, 0, e);
    assert t.nodes[0].es[0..] == t.nodes[0].es;
    HeldAtOrBelow(t, depth, 0, e);
    forall c | Used(t, c) ensures Above(t, depth, 0, c) {
      RootIsAbove(t, depth, c);
    }
    assert (exists c :: Holds(t, c, e)) <==> HeldAt(t, depth, 0, e);
    assert forall c :: Holds(t, c, e) <==> IsDir(t, c) && e.nr >= 0 && e in t.nodes[c].es;
  }

  /** The entries that are not removed ones, in their order. */
  function LiveEntries(es: seq<Dirent>): seq<Dirent>
  {
    if es == [] then []
    else LiveEntries(es[..|es| - 1]) + if es[|es| - 1].nr >= 0 then [es[|es| - 1]] else []
  }

  lemma {:induction false} LiveConcat(a: seq<Dirent>, b: seq<Dirent>)
    ensures LiveEntries(a + b) == LiveEntries(a) + LiveEntries(b)
    decreases |b|
  {
    if b == [] {
      assert a + b == a;
    } else {
      assert (a + b)[..|a + b| - 1] == a + b[..|b| - 1];
      LiveConcat(a, b[..|b| - 1]);
    }
  }

  /** ls prints the entries of the directory that are not removed ones, in their order. */
  lemma {:induction false} LsPrintsEntries(t: Tree, depth: seq<nat>, k: int, i: nat)
    requires Rooted(t, depth) && IsDir(t, k) && i <= |t.nodes[k].es|
    ensures Ls(t, depth, k, i, false) == LiveEntries(t.nodes[k].es[i..])
    decreases |t.nodes[k].es| - i
  {
    hide Rooted, Ls;
    LsUnfolds(t, depth, k, i, false);
    var es := t.nodes[k].es;
    if i < |es| {
      LsPrintsEntries(t, depth, k, i + 1);
      assert es[i..] == [es[i]] + es[i + 1..];
      LiveConcat([es[i]], es[i + 1..]);
      assert [es[i]][..0] == [];
    }
  }
}
