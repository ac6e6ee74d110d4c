/**
 The names of the file system (fs/dir.c): the directories as lists of entries, the commands that change them, and
 why they form a tree rooted at inode 0 after every command.
 */
module NameTrees {
  import opened Codec
  import opened DirLogs

  type Name = seq<byte>

  /** What an inode number stands for. */
  datatype Node = Free | File | Dir(es: seq<Dirent>)

  /** The inodes by number, and the current directory. */
  datatype Tree = Tree(nodes: seq<Node>, cur: nat)

  predicate IsDir(t: Tree, k: int)
  {
    0 <= k < |t.nodes| && t.nodes[k].Dir?
  }

  predicate Dots(name: Name)
  {
    name == DOT || name == DOTDOT
  }

  /** The inode number a name has in directory `k`; negative if there is none. */
  function At(t: Tree, k: int, name: Name): int
  {
    if IsDir(t, k) then Lookup(t.nodes[k].es, name) else -1
  }

  function Parent(t: Tree, k: int): int
  {
    At(t, k, DOTDOT)
  }

  /** Entry `i` of directory `k` names inode `c`, and is neither "." nor "..". */
  predicate Child(t: Tree, k: int, i: int, c: int)
  {
    IsDir(t, k) && 0 <= i < |t.nodes[k].es| && t.nodes[k].es[i].nr == c >= 0 && !Dots(t.nodes[k].es[i].name)
  }

  /** Names are unique, "." is the directory itself and ".." is a directory. */
  ghost predicate HasDots(t: Tree, k: int)
  {
    IsDir(t, k) && Unique(t.nodes[k].es) && At(t, k, DOT) == k && IsDir(t, Parent(t, k))
  }

  /** Inode `c`, an entry of directory `k`, exists, is no ancestor of `k`, and has `k` as its parent. */
  ghost predicate ChildOk(t: Tree, depth: seq<nat>, k: int, c: int)
  {
    && 0 < c < |t.nodes| && 0 <= k < |t.nodes| && |depth| == |t.nodes|
    && t.nodes[c] != Free && depth[c] == depth[k] + 1
    && (IsDir(t, c) ==> Parent(t, c) == k)
  }

  ghost predicate Named(t: Tree, c: int)
  {
    exists k, i :: Child(t, k, i, c)
  }

  ghost predicate DirsOk(t: Tree)
  {
    forall k {:trigger HasDots(t, k)} | IsDir(t, k) :: HasDots(t, k)
  }

  ghost predicate ChildrenOk(t: Tree, depth: seq<nat>)
  {
    forall k, i, c | Child(t, k, i, c) :: ChildOk(t, depth, k, c)
  }

  ghost predicate AllNamed(t: Tree)
  {
    forall c | 0 < c < |t.nodes| && t.nodes[c] != Free :: Named(t, c)
  }

  ghost predicate NamedOnce(t: Tree)
  {
    forall k, i, l, j, c | Child(t, k, i, c) && Child(t, l, j, c) :: k == l && i == j
  }

  /**
   A tree rooted at inode 0: "." is self, ".." is the parent, every other inode is named exactly once. `depth` is the
   distance of every inode from the root.
   */
  ghost predicate Rooted(t: Tree, depth: seq<nat>)
  {
    && |depth| == |t.nodes| && IsDir(t, 0) && depth[0] == 0 && Parent(t, 0) == 0 && IsDir(t, t.cur)
    && DirsOk(t) && ChildrenOk(t, depth) && AllNamed(t) && NamedOnce(t)
  }

  ghost predicate IsTree(t: Tree)
  {
    exists depth :: Rooted(t, depth)
  }

  // ---- commands

  datatype Command = Mkdir(name: Name) | Create(name: Name) | Rm(name: Name) | Cd(name: Name)

  function NewDir(nr: nat, parent: nat): seq<Dirent>
  {
    [Dirent(nr, DOT), Dirent(parent, DOTDOT)]
  }

  /** The name can be taken and inode `nr` is free for it. */
  predicate CanEnter(t: Tree, name: Name, nr: nat)
  {
    IsDir(t, t.cur) && At(t, t.cur, name) < 0 && nr < |t.nodes| && t.nodes[nr] == Free
  }

  /** The file system after a new inode `nr` is entered into the current directory. */
  function Entered(t: Tree, name: Name, nr: nat, node: Node): Tree
    requires CanEnter(t, name, nr)
  {
    t.(nodes := t.nodes[nr := node][t.cur := Dir(Added(t.nodes[t.cur].es, name, nr))])
  }

  /** The name is there, and does not name a directory that is not empty. */
  predicate CanRemove(t: Tree, name: Name)
  {
    IsDir(t, t.cur) && !Dots(name) &&
    var c := At(t, t.cur, name);
    0 <= c < |t.nodes| && (t.nodes[c].Dir? ==> Bare(t.nodes[c].es))
  }

  function RemovedFrom(t: Tree, name: Name): Tree
    requires CanRemove(t, name)
  {
    var es := t.nodes[t.cur].es;
    t.(nodes := t.nodes[t.cur := Dir(Removed(es, Index(es, name)))][At(t, t.cur, name) := Free])
  }

  /** A command that succeeds; `nr` is the inode number taken by a new file or directory. */
  predicate Succeeds(t: Tree, c: Command, nr: nat, u: Tree)
  {
    match c
    case Mkdir(name) => CanEnter(t, name, nr) && u == Entered(t, name, nr, Dir(NewDir(nr, t.cur)))
    case Create(name) => CanEnter(t, name, nr) && u == Entered(t, name, nr, File)
    case Rm(name) => CanRemove(t, name) && u == RemovedFrom(t, name)
    case Cd(name) => IsDir(t, At(t, t.cur, name)) && u == t.(cur := At(t, t.cur, name))
  }

  // ---- what a new name keeps

  lemma NewDirNames(nr: nat, parent: nat)
    ensures var es := NewDir(nr, parent); Unique(es) && Lookup(es, DOT) == nr && Lookup(es, DOTDOT) == parent
  {
    LookupAt(NewDir(nr, parent), 0);
    LookupAt(NewDir(nr, parent), 1);
  }

  ghost predicate NewNode(t: Tree, nr: nat, node: Node)
  {
    node == File || node == Dir(NewDir(nr, t.cur))
  }

  lemma EnteredLookups(t: Tree, name: Name, nr: nat, node: Node)
    requires DirsOk(t) && CanEnter(t, name, nr) && NewNode(t, nr, node)
    ensures var u := Entered(t, name, nr, node);
            && (forall k :: IsDir(u, k) <==> IsDir(t, k) || (k == nr && node.Dir?))
            && (forall k | IsDir(t, k) :: Unique(u.nodes[k].es))
            && (forall k, n | IsDir(t, k) :: At(u, k, n) == if k == t.cur && n == name then nr else At(t, k, n))
            && (node.Dir? ==> Unique(u.nodes[nr].es) && At(u, nr, DOT) == nr && Parent(u, nr) == t.cur)
  {
    hide Lookup, Unique, Added, NewDir;
    assert HasDots(t, t.cur);
    LookupAdded(t.nodes[t.cur].es, name, nr);
    NewDirNames(nr, t.cur);
    forall k | IsDir(t, k) ensures Unique(Entered(t, name, nr, node).nodes[k].es) {
      assert HasDots(t, k);
    }
  }

  lemma EnteredDirsOk(t: Tree, name: Name, nr: nat, node: Node)
    requires DirsOk(t) && CanEnter(t, name, nr) && NewNode(t, nr, node)
    ensures DirsOk(Entered(t, name, nr, node))
    ensures forall k | IsDir(t, k) :: Parent(Entered(t, name, nr, node), k) == Parent(t, k)
  {
    hide At, Entered, NewDir, CanEnter, Unique;
    var u := Entered(t, name, nr, node);
    EnteredLookups(t, name, nr, node);
    TakenNamesDiffer(t, name, nr);
    forall k | IsDir(u, k) ensures HasDots(u, k) {
      if IsDir(t, k) { assert HasDots(t, k); }
    }
    forall k | IsDir(t, k) ensures Parent(u, k) == Parent(t, k) {
      assert HasDots(t, k);
    }
  }

  lemma TakenNamesDiffer(t: Tree, name: Name, nr: nat)
    requires DirsOk(t) && CanEnter(t, name, nr)
    ensures !Dots(name) && nr != t.cur && IsDir(t, t.cur)
  {
    assert HasDots(t, t.cur);
  }

  lemma EnteredChildren(t: Tree, name: Name, nr: nat, node: Node, k: int, i: int, c: int)
    requires CanEnter(t, name, nr) && NewNode(t, nr, node) && !Dots(name)
    ensures Child(Entered(t, name, nr, node), k, i, c) <==>
            Child(t, k, i, c) || (k == t.cur && i == Slot(t.nodes[t.cur].es, |name|) && c == nr)
  {
    hide Slot, Lookup, Dots;
    SlotFree(t.nodes[t.cur].es, |name|);
    AddedEntry(t.nodes[t.cur].es, name, nr, i);
    DotsAreDots();
  }

  lemma DotsAreDots()
    ensures Dots(DOT) && Dots(DOTDOT)
  {
  }

  lemma SlotFree(es: seq<Dirent>, n: nat)
    ensures Slot(es, n) <= |es| && (Slot(es, n) < |es| ==> es[Slot(es, n)].nr < 0)
  {
  }

  lemma AddedEntry(es: seq<Dirent>, name: Name, nr: nat, i: int)
    ensures var s, fs := Slot(es, |name|), Added(es, name, nr);
            && |fs| == (if s < |es| then |es| else |es| + 1) && s < |fs|
            && (0 <= i < |fs| ==> fs[i] == if i == s then Dirent(nr, name) else if i < |es| then es[i] else fs[i])
            && (0 <= i < |fs| && i != s ==> i < |es|)
  {
  }

  /** A new file or directory leaves a tree. */
  lemma EnterKeepsTree(t: Tree, depth: seq<nat>, name: Name, nr: nat, node: Node)
    requires Rooted(t, depth) && CanEnter(t, name, nr) && NewNode(t, nr, node)
    ensures Rooted(Entered(t, name, nr, node), depth[nr := depth[t.cur] + 1])
  {
    hide Child, HasDots, Parent, Slot, NewDir;
    var u, d := Entered(t, name, nr, node), depth[nr := depth[t.cur] + 1];
    var s := Slot(t.nodes[t.cur].es, |name|);
    TakenNamesDiffer(t, name, nr);
    EnteredLookups(t, name, nr, node);
    EnteredDirsOk(t, name, nr, node);
    forall k, i, c ensures Child(u, k, i, c) <==> Child(t, k, i, c) || (k == t.cur && i == s && c == nr) {
      EnteredChildren(t, name, nr, node, k, i, c);
    }
    forall k, i, c | Child(u, k, i, c) ensures ChildOk(u, d, k, c) {
      if Child(t, k, i, c) { ChildIsThere(t, depth, k, i, c); }
    }
    forall c | 0 < c < |u.nodes| && u.nodes[c] != Free ensures Named(u, c) {
      if c == nr {
        assert Child(u, t.cur, s, nr);
      } else {
        assert Named(t, c);
        var k, i :| Child(t, k, i, c);
        assert Child(u, k, i, c);
      }
    }
    forall k, i, l, j, c | Child(u, k, i, c) && Child(u, l, j, c) ensures k == l && i == j {
      if Child(t, k, i, c) { ChildIsThere(t, depth, k, i, c); }
      if Child(t, l, j, c) { ChildIsThere(t, depth, l, j, c); }
    }
  }

  lemma ChildIsThere(t: Tree, depth: seq<nat>, k: int, i: int, c: int)
    requires ChildrenOk(t, depth) && Child(t, k, i, c)
    ensures ChildOk(t, depth, k, c) && IsDir(t, k)
  {
  }

  // ---- what a removal keeps

  lemma RemovedLookups(t: Tree, name: Name)
    requires DirsOk(t) && CanRemove(t, name)
    ensures var u, c := RemovedFrom(t, name), At(t, t.cur, name);
            && (forall k :: IsDir(u, k) <==> IsDir(t, k) && (k != c || k == t.cur))
            && (forall k | IsDir(u, k) :: Unique(u.nodes[k].es))
            && (forall k, n | IsDir(u, k) && k != c :: At(u, k, n) == if k == t.cur && n == name then -1 else At(t, k, n))
  {
    hide Lookup, Unique, Removed, Index;
    assert HasDots(t, t.cur);
    var es := t.nodes[t.cur].es;
    IndexIsLookup(es, name);
    LookupRemoved(es, Index(es, name));
    forall k | IsDir(t, k) ensures Unique(t.nodes[k].es) {
      assert HasDots(t, k);
    }
  }

  lemma IndexIsLookup(es: seq<Dirent>, name: Name)
    requires Lookup(es, name) >= 0
    ensures Index(es, name) < |es| && es[Index(es, name)] == Dirent(Lookup(es, name), name)
  {
  }

  /** What a removable name names is a child, and has no children of its own. */
  lemma RemovedIsLeaf(t: Tree, depth: seq<nat>, name: Name)
    requires Rooted(t, depth) && CanRemove(t, name)
    ensures var es, c := t.nodes[t.cur].es, At(t, t.cur, name);
            && Child(t, t.cur, Index(es, name), c) && ChildOk(t, depth, t.cur, c) && c != t.cur
            && forall i, x :: !Child(t, c, i, x)
  {
    hide Index, Lookup;
    var es, c := t.nodes[t.cur].es, At(t, t.cur, name);
    IndexIsLookup(es, name);
    ChildIsThere(t, depth, t.cur, Index(es, name), c);
  }

  lemma RemovedChildren(t: Tree, depth: seq<nat>, name: Name, k: int, i: int, x: int)
    requires Rooted(t, depth) && CanRemove(t, name)
    ensures Child(RemovedFrom(t, name), k, i, x) <==>
            Child(t, k, i, x) && !(k == t.cur && i == Index(t.nodes[t.cur].es, name))
  {
    hide Index, Lookup, Rooted;
    RemovedIsLeaf(t, depth, name);
    IndexIsLookup(t.nodes[t.cur].es, name);
    assert !Child(t, At(t, t.cur, name), i, x);
  }

  /** The parent of a directory holds an entry for it; only the root is its own parent. */
  lemma ParentNames(t: Tree, depth: seq<nat>, k: int)
    requires Rooted(t, depth) && IsDir(t, k)
    ensures IsDir(t, Parent(t, k)) && (Parent(t, k) == k <==> k == 0)
    ensures k != 0 ==> depth[k] == depth[Parent(t, k)] + 1 && exists i :: Child(t, Parent(t, k), i, k)
  {
    hide Child, At;
    assert HasDots(t, k);
    if k != 0 {
      assert Named(t, k);
      var p, i :| Child(t, p, i, k);
      ChildIsThere(t, depth, p, i, k);
    }
  }

  lemma RemovedDirsOk(t: Tree, depth: seq<nat>, name: Name)
    requires Rooted(t, depth) && CanRemove(t, name)
    ensures DirsOk(RemovedFrom(t, name))
    ensures forall k | IsDir(RemovedFrom(t, name), k) :: Parent(RemovedFrom(t, name), k) == Parent(t, k)
  {
    hide At, RemovedFrom, CanRemove, Unique, Rooted, Index;
    var u, c := RemovedFrom(t, name), At(t, t.cur, name);
    RootedParts(t, depth);
    RemovedLookups(t, name);
    RemovedIsLeaf(t, depth, name);
    NotDots(t, name);
    forall k | IsDir(u, k) ensures HasDots(u, k) && Parent(u, k) == Parent(t, k) {
      assert HasDots(t, k);
      ParentNames(t, depth, k);
      assert k != c;
    }
  }

  lemma NotDots(t: Tree, name: Name)
    requires CanRemove(t, name)
    ensures name != DOT && name != DOTDOT && IsDir(t, t.cur)
  {
  }

  lemma RootedParts(t: Tree, depth: seq<nat>)
    requires Rooted(t, depth)
    ensures DirsOk(t) && ChildrenOk(t, depth) && AllNamed(t) && NamedOnce(t) && |depth| == |t.nodes| && Parent(t, 0) == 0
  {
  }

  /** Removing a file or an empty directory leaves a tree. */
  lemma RemoveKeepsTree(t: Tree, depth: seq<nat>, name: Name)
    requires Rooted(t, depth) && CanRemove(t, name)
    ensures Rooted(RemovedFrom(t, name), depth)
  {
    hide Child, HasDots, Parent, Index, At;
    var u, c := RemovedFrom(t, name), At(t, t.cur, name);
    var s := Index(t.nodes[t.cur].es, name);
    RemovedIsLeaf(t, depth, name);
    RemovedLookups(t, name);
    RemovedDirsOk(t, depth, name);
    forall k, i, x ensures Child(u, k, i, x) <==> Child(t, k, i, x) && !(k == t.cur && i == s) {
      RemovedChildren(t, depth, name, k, i, x);
    }
    forall k, i, x | Child(u, k, i, x) ensures ChildOk(u, depth, k, x) {
      ChildIsThere(t, depth, k, i, x);
    }
    forall x | 0 < x < |u.nodes| && u.nodes[x] != Free ensures Named(u, x) {
      assert Named(t, x);
      var k, i :| Child(t, k, i, x);
      NamesOne(t, t.cur, s);
      assert Child(u, k, i, x);
    }
  }

  lemma NamesOne(t: Tree, k: int, i: int)
    ensures forall c, x | Child(t, k, i, c) && Child(t, k, i, x) :: c == x
  {
  }

  /** rm undoes create and mkdir: every directory binds what it bound before, and no other inode has changed. */
  lemma RmUndoesCreate(t: Tree, name: Name, nr: nat, node: Node)
    requires DirsOk(t) && CanEnter(t, name, nr) && NewNode(t, nr, node)
    ensures var u := Entered(t, name, nr, node);
            CanRemove(u, name) &&
            var v := RemovedFrom(u, name);
            && v.cur == t.cur && |v.nodes| == |t.nodes|
            && (forall k | 0 <= k < |t.nodes| && k != t.cur :: v.nodes[k] == t.nodes[k])
            && (forall k, n :: At(v, k, n) == At(t, k, n) || (At(v, k, n) < 0 && At(t, k, n) < 0))
  {
    hide Lookup, Unique, Added, Removed, Index;
    var u := Entered(t, name, nr, node);
    EnteredLookups(t, name, nr, node);
    EnteredDirsOk(t, name, nr, node);
    TakenNamesDiffer(t, name, nr);
    RemovedLookups(u, name);
  }

  /** The inodes are as they were, but for two. */
  predicate SameNodesBut(t: Tree, u: Tree, k: int, l: int)
  {
    |u.nodes| == |t.nodes| && forall m | 0 <= m < |t.nodes| && m != k && m != l :: u.nodes[m] == t.nodes[m]
  }

  /** A name that is entered was not there, is bound to an inode that was free, and nothing else is bound otherwise. */
  ghost predicate Binds(t: Tree, name: Name, nr: nat, u: Tree)
  {
    && u.cur == t.cur && SameNodesBut(t, u, t.cur, nr) && nr < |t.nodes| && t.nodes[nr] == Free
    && At(t, t.cur, name) < 0 && At(u, t.cur, name) == nr
    && forall k, n | k != nr && (k != t.cur || n != name) :: At(u, k, n) == At(t, k, n)
  }

  /** A name that is removed was there, is there no longer, and its inode is free. */
  ghost predicate Unbinds(t: Tree, name: Name, u: Tree)
  {
    var c := At(t, t.cur, name);
    && u.cur == t.cur && 0 <= c < |t.nodes| && SameNodesBut(t, u, t.cur, c) && u.nodes[c] == Free
    && At(u, t.cur, name) < 0
    && forall k, n | k != c && (k != t.cur || n != name) :: At(u, k, n) == At(t, k, n)
  }

  /** What each command does to the names. */
  lemma CommandOutcome(t: Tree, c: Command, nr: nat, u: Tree)
    requires IsTree(t) && Succeeds(t, c, nr, u)
    ensures match c
      case Mkdir(name) => Binds(t, name, nr, u) && At(u, nr, DOT) == nr && Parent(u, nr) == t.cur && Bare(u.nodes[nr].es)
      case Create(name) => Binds(t, name, nr, u) && u.nodes[nr] == File
      case Rm(name) => Unbinds(t, name, u)
      case Cd(name) => u.nodes == t.nodes && IsDir(u, u.cur) && u.cur == At(t, t.cur, name)
  {
    hide Lookup, Unique, Added, Removed, Index, Child;
    var depth :| Rooted(t, depth);
    RootedParts(t, depth);
    match c
    case Mkdir(name) =>
      EnteredLookups(t, name, nr, Dir(NewDir(nr, t.cur)));
      TakenNamesDiffer(t, name, nr);
    case Create(name) =>
      EnteredLookups(t, name, nr, File);
      TakenNamesDiffer(t, name, nr);
    case Rm(name) =>
      RemovedIsLeaf(t, depth, name);
      RemovedLookups(t, name);
    case Cd(name) =>
  }

  // ---- runs

  /** A command leaves the names a tree; what it needs is only that they were one. */
  lemma CommandKeepsTree(t: Tree, c: Command, nr: nat, u: Tree)
    requires IsTree(t) && Succeeds(t, c, nr, u)
    ensures IsTree(u)
  {
    hide Rooted, CanRemove, Entered, RemovedFrom, NewDir;
    var depth :| Rooted(t, depth);
    match c
    case Mkdir(name) =>
      CurIsDir(t, depth);
      EnterKeepsTree(t, depth, name, nr, Dir(NewDir(nr, t.cur)));
      assert Rooted(u, depth[nr := depth[t.cur] + 1]);
    case Create(name) =>
      CurIsDir(t, depth);
      EnterKeepsTree(t, depth, name, nr, File);
    case Rm(name) =>
      RemoveKeepsTree(t, depth, name);
    case Cd(name) =>
      CdKeepsTree(t, depth, At(t, t.cur, name));
  }

  lemma CurIsDir(t: Tree, depth: seq<nat>)
    requires Rooted(t, depth)
    ensures IsDir(t, t.cur) && t.cur < |depth| == |t.nodes|
  {
  }

  lemma CdKeepsTree(t: Tree, depth: seq<nat>, k: nat)
    requires Rooted(t, depth) && IsDir(t, k)
    ensures Rooted(t.(cur := k), depth)
  {
    var u := t.(cur := k);
    assert forall k, n :: At(u, k, n) == At(t, k, n);
    forall k | IsDir(u, k) ensures HasDots(u, k) {
      assert HasDots(t, k);
    }
    assert forall k, i, c :: Child(u, k, i, c) == Child(t, k, i, c);
    forall k, i, c | Child(u, k, i, c) ensures ChildOk(u, depth, k, c) {
      ChildIsThere(t, depth, k, i, c);
    }
    forall c | 0 < c < |u.nodes| && u.nodes[c] != Free ensures Named(u, c) {
      assert Named(t, c);
      var k, i :| Child(t, k, i, c);
      assert Child(u, k, i, c);
    }
  }

  /** The file system that testfs_make_root_dir makes. */
  function NewTree(nodes: nat): Tree
    requires nodes > 0
  {
    Tree([Dir(NewDir(0, 0))] + seq(nodes - 1, _ => Free), 0)
  }

  lemma NewTreeIsTree(nodes: nat)
    requires nodes > 0
    ensures IsTree(NewTree(nodes))
  {
    var t := NewTree(nodes);
    NewDirNames(0, 0);
    var depth := seq(nodes, _ => 0);
    assert HasDots(t, 0);
    assert forall k, i, c :: !Child(t, k, i, c);
    assert Rooted(t, depth);
  }

  ghost predicate Run(ts: seq<Tree>, cs: seq<Command>, nrs: seq<nat>)
  {
    |ts| == |cs| + 1 == |nrs| + 1 && forall k | 0 <= k < |cs| :: Succeeds(ts[k], cs[k], nrs[k], ts[k + 1])
  }

  /** Whatever commands are given, the names form a tree, and the current directory is in it. */
  lemma {:induction false} RunsKeepTree(ts: seq<Tree>, cs: seq<Command>, nrs: seq<nat>, nodes: nat, n: nat)
    requires Run(ts, cs, nrs) && nodes > 0 && ts[0] == NewTree(nodes) && n < |ts|
    ensures IsTree(ts[n]) && IsDir(ts[n], ts[n].cur)
    decreases n
  {
    hide Rooted, Succeeds, NewTree;
    if n == 0 {
      NewTreeIsTree(nodes);
    } else {
      RunsKeepTree(ts, cs, nrs, nodes, n - 1);
      CommandKeepsTree(ts[n - 1], cs[n - 1], nrs[n - 1], ts[n]);
    }
    var depth :| Rooted(ts[n], depth);
    CurIsDir(ts[n], depth);
  }

  /** Every name of a directory names an inode there is. */
  lemma LookupInRange(t: Tree, depth: seq<nat>, k: int, name: Name)
    requires Rooted(t, depth) && IsDir(t, k)
    ensures At(t, k, name) < |t.nodes|
    ensures At(t, k, name) >= 0 ==> t.nodes[At(t, k, name)] != Free
  {
    hide Lookup, Rooted;
    RootedParts(t, depth);
    ParentNames(t, depth, k);
    assert HasDots(t, k);
    if At(t, k, name) >= 0 && !Dots(name) {
      LookupFrom(t.nodes[k].es, name);
      var i :| 0 <= i < |t.nodes[k].es| && Live(t.nodes[k].es[i], name) && t.nodes[k].es[i].nr == At(t, k, name);
      ChildIsThere(t, depth, k, i, At(t, k, name));
    }
  }
}
