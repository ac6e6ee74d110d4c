/** The cache of files: hash chains, and a list from the least to the most recently used (webserver/server_thread.c). */
module Caches {
  import opened Sequences
  import opened CacheLists

  // ---- hash chains

  /** No cell twice in a chain. */
  predicate NoRepeat(chain: seq<int>)
  {
    forall i, j | 0 <= i < j < |chain| :: chain[i] != chain[j]
  }

  /**
   A chain after a cell of it is deleted as the eviction does it: the only component goes; of several the first is not
   unlinked, because its predecessor is taken to be itself (lines 287-304).
   */
  function Deleted(chain: seq<int>, t: int): (r: seq<int>)
  {
    if |chain| <= 1 then []
    else if chain[0] == t then chain
    else [chain[0]] + Cut(chain[1..], t)
  }

  function Cut(chain: seq<int>, t: int): seq<int>
  {
    if chain == [] then [] else if chain[0] == t then chain[1..] else [chain[0]] + Cut(chain[1..], t)
  }

  lemma {:induction false} CutMembers(chain: seq<int>, t: int)
    requires NoRepeat(chain)
    ensures NoRepeat(Cut(chain, t)) && forall x :: x in Cut(chain, t) <==> x in chain && x != t
  {
    if chain != [] {
      CutMembers(chain[1..], t);
      assert chain == [chain[0]] + chain[1..];
      if chain[0] == t {
        assert t !in chain[1..];
      } else {
        var r := Cut(chain[1..], t);
        forall i, j | 0 <= i < j < |r| + 1 ensures Cut(chain, t)[i] != Cut(chain, t)[j] {
          if i == 0 { assert r[j - 1] in r; }
        }
      }
    }
  }

  /** Deleting takes the cell out of its chain exactly when it is not the first of several. */
  lemma DeletedIff(chain: seq<int>, t: int)
    requires NoRepeat(chain) && t in chain
    ensures NoRepeat(Deleted(chain, t))
    ensures forall x | x != t :: x in Deleted(chain, t) <==> x in chain
    ensures t !in Deleted(chain, t) <==> |chain| == 1 || chain[0] != t
  {
    if |chain| == 1 {
      assert chain == [t];
    } else if chain[0] != t {
      CutMembers(chain[1..], t);
      assert chain == [chain[0]] + chain[1..];
      var r := Deleted(chain, t);
      forall i, j | 0 <= i < j < |r| ensures r[i] != r[j] {
        if i == 0 { assert r[j] in Cut(chain[1..], t); }
      }
    }
  }

  lemma {:induction false} CutAt(chain: seq<int>, t: int, j: nat)
    requires j < |chain| && chain[j] == t && forall i | 0 <= i < j :: chain[i] != t
    ensures Cut(chain, t) == chain[..j] + chain[j + 1..]
  {
    if j > 0 {
      CutAt(chain[1..], t, j - 1);
      assert chain[1..][..j - 1] == chain[1..j] && chain[1..][j..] == chain[j + 1..];
    }
  }

  class Cache {
    const maxSize: nat
    const hash: Name -> nat
    var files: seq<File>  // every file ever inserted, by cell
    var refs: seq<int>
    var next: seq<int>
    var head: int
    var tail: int
    var table: seq<seq<int>>
    var occupied: int
    ghost var lru: seq<int>

    /** stringToHash: some hash of the name, within the table. */
    function Bucket(name: Name): (b: nat)
      requires table != []
      reads this
      ensures b < |table|
    {
      hash(name) % |table|
    }

    ghost predicate Cells()
      reads this
    {
      |files| == |refs| == |next| && Distinct(lru, |files|) && table != []
    }

    /** The list from head to tail is `lru`, without two files of one name. */
    ghost predicate Listed()
      reads this
    {
      && Cells() && Spells(next, head, tail, lru)
      && forall i, j | 0 <= i < j < |lru| :: files[lru[i]].name != files[lru[j]].name
    }

    /** Every file of the list is in the chain of its name, and no other file is in a chain. */
    ghost predicate Hashed()
      requires Cells()
      reads this
    {
      && (forall b | 0 <= b < |table| :: NoRepeat(table[b]))
      && (forall b, t {:trigger t in table[b]} | 0 <= b < |table| && t in table[b] ::
            0 <= t < |files| && t in lru && Bucket(files[t].name) == b)
      && (forall t | t in lru :: t in table[Bucket(files[t].name)])
    }

    /** List, chains and byte count agree, and the bytes are within the budget. */
    ghost predicate Agreed()
      reads this
    {
      Listed() && Hashed() && occupied == Sum(files, lru) <= maxSize
    }

    constructor (maxSize: nat, buckets: nat, hash: Name -> nat)
      requires buckets > 0
      ensures Agreed() && lru == [] && this.maxSize == maxSize && this.hash == hash && |table| == buckets
    {
      this.maxSize, this.hash := maxSize, hash;
      files, refs, next, head, tail := [], [], [], -1, -1;
      table := seq(buckets, _ => []);
      occupied, lru := 0, [];
    }

    /** Position of a name in the list; its length if the name is not there. */
    ghost function Position(name: Name): (i: nat)
      requires Cells()
      reads this
      ensures i <= |lru| && (i < |lru| ==> files[lru[i]].name == name)
      ensures forall j | 0 <= j < i :: files[lru[j]].name != name
    {
      PositionIn(files, lru, name)
    }

    /** The walk of set_LRU: the entry of a name, and the entry before it. */
    method Walk(name: Name) returns (pre: int, cur: int)
      requires Listed() && Position(name) < |lru|
      ensures var p := Position(name); cur == lru[p] && pre == if p == 0 then head else lru[p - 1]
    {
      ghost var p := Position(name);
      pre, cur := head, head;
      ghost var i := 0;
      ListEnds(next, head, tail, lru);
      while next[cur] != -1 && files[cur].name != name
        invariant i <= p && cur == lru[i] && pre == (if i == 0 then head else lru[i - 1])
        decreases |lru| - i
      {
        pre := cur;
        cur := next[cur];
        i := i + 1;
      }
    }

    /** Moves the entry of a name to the most recently used end. The name has to be there. */
    method SetLru(name: Name)
      requires Listed() && Position(name) < |lru|
      modifies this`next, this`head, this`tail, this`lru
      ensures Listed() && lru == old(Without(lru, Position(name)) + [lru[Position(name)]])
    {
      hide Distinct, Spells, Without;
      ghost var p, q := Position(name), lru;
      ListEnds(next, head, tail, lru);
      CellsInRange(next, head, tail, lru);
      MovedNames(files, q, p);
      LastMoved(q);
      if head == tail {
        return;
      }
      var pre, cur := Walk(name);
      if cur != tail {
        MovedToTail(next, head, tail, q, p);
        if cur == head {
          head := next[cur];
        } else {
          next := next[pre := next[cur]];
        }
        next := next[cur := -1];
        next := next[tail := cur];
        tail := cur;
      }
      lru := Without(q, p) + [q[p]];
    }

    /** find_LRU */
    method FindLru(name: Name) returns (r: int)
      requires Listed()
      ensures r == if Position(name) < |lru| then lru[Position(name)] else -1
    {
      r := head;
      ghost var i := 0;
      while r != -1 && files[r].name != name
        invariant i <= Position(name) && r == if i < |lru| then lru[i] else -1
        decreases |lru| - i
      {
        if lru != [] { ListEnds(next, head, tail, lru); }
        r := next[r];
        i := i + 1;
      }
    }

    /** cache_lookup: the file of a name; with `update` it becomes the most recently used. */
    method Lookup(name: Name, update: bool) returns (r: int)
      requires Agreed()
      modifies this`next, this`head, this`tail, this`lru
      ensures Agreed()
      ensures var p, q := old(Position(name)), old(lru);
              && r == (if p < |q| then q[p] else -1)
              && lru == if p < |q| && update then Without(q, p) + [q[p]] else q
    {
      hide Spells, Sum;
      var chain := table[Bucket(name)];
      ghost var p, q := Position(name), lru;
      InChain(name);
      ChainInRange(Bucket(name), lru);
      var j := FindInChain(chain, name);
      if j == |chain| {
        return -1;
      }
      r := chain[j];
      assert r in table[Bucket(name)];
      OnlyOne(r, name);
      if update {
        SetLru(name);
        SumMoved(files, q, p);
      }
    }

    lemma ChainInRange(b: nat, all: seq<int>)
      requires Cells() && Chains(all, []) && b < |table|
      ensures forall i | 0 <= i < |table[b]| :: 0 <= table[b][i] < |files| && table[b][i] in all
    {
      forall i | 0 <= i < |table[b]| ensures 0 <= table[b][i] < |files| && table[b][i] in all {
        var t := table[b][i];
        assert t in table[b];
      }
    }

    /** The first file of a name in a chain. */
    method FindInChain(chain: seq<int>, name: Name) returns (j: nat)
      requires forall i | 0 <= i < |chain| :: 0 <= chain[i] < |files|
      ensures j <= |chain| && (j < |chain| ==> 0 <= chain[j] < |files| && files[chain[j]].name == name)
      ensures forall i | 0 <= i < j :: 0 <= chain[i] < |files| && files[chain[i]].name != name
    {
      j := 0;
      while j < |chain| && files[chain[j]].name != name
        invariant j <= |chain|
        invariant forall i | 0 <= i < j :: 0 <= chain[i] < |files| && files[chain[i]].name != name
      {
        j := j + 1;
      }
    }

    /** A file of the list is found in the chain of its name. */
    lemma InChain(name: Name)
      requires Agreed()
      ensures Position(name) < |lru| ==> lru[Position(name)] in table[Bucket(name)]
    {
      if Position(name) < |lru| { assert lru[Position(name)] in lru; }
    }

    lemma OnlyOne(t: int, name: Name)
      requires Listed() && t in lru && files[t].name == name
      ensures Position(name) < |lru| && lru[Position(name)] == t
    {
      var i :| 0 <= i < |lru| && lru[i] == t;
    }

    // ---- eviction

    /** The chains while an eviction runs: they hold the files in `q`, and nothing but files in `all`. */
    ghost predicate Chains(all: seq<int>, q: seq<int>)
      requires Cells() && Distinct(q, |files|)
      reads this
    {
      && (forall b | 0 <= b < |table| :: NoRepeat(table[b]))
      && (forall b, t {:trigger t in table[b]} | 0 <= b < |table| && t in table[b] ::
            0 <= t < |files| && t in all && Bucket(files[t].name) == b)
      && (forall t | t in q :: t in table[Bucket(files[t].name)])
    }

    /** No chain holds a file that has left the list. */
    ghost predicate NoStale()
      reads this
    {
      forall b, t {:trigger t in table[b]} | 0 <= b < |table| && t in table[b] :: t in lru
    }

    /** The file is first in its chain, and others follow. */
    ghost predicate FirstOfSeveral(t: int)
      requires Cells() && 0 <= t < |files|
      reads this
    {
      var chain := table[Bucket(files[t].name)];
      |chain| > 1 && chain[0] == t
    }

    /** Deletes a file from its chain (from the label hash_delete on). */
    method HashDelete(t: int, ghost all: seq<int>, ghost q: seq<int>)
      requires Cells() && Distinct(q, |files|) && Chains(all, q) && Distinct(all, |files|) && t in q && t in all
      requires forall i, j | 0 <= i < j < |all| :: files[all[i]].name != files[all[j]].name
      modifies this`table
      ensures table == old(table[Bucket(files[t].name) := Deleted(table[Bucket(files[t].name)], t)])
      ensures Cells() && forall b | 0 <= b < |table| :: NoRepeat(table[b])
      ensures forall b, x {:trigger x in table[b]} | 0 <= b < |table| ::
                x in table[b] <==> x in old(table)[b] && (x != t || old(FirstOfSeveral(t)))
    {
      DeletedFrom(table, Bucket(files[t].name), t);
      var b := Bucket(files[t].name);
      var chain := table[b];
      if |chain| == 1 {
        table := table[b := []];
        return;
      }
      ChainInRange(b, all);
      var j := FindInChain(chain, files[t].name);
      if j < |chain| {
        SameNameSame(files, all, chain[j], t);
        DeletedAt(chain, t, j);
        if j > 0 {
          table := table[b := chain[..j] + chain[j + 1..]];
        } else {
          assert table[b := chain] == table;
        }
      }
    }

    /**
     Takes one entry out of the list (lines 238-262) and returns what its link says afterwards. Behind the new last
     entry the list is not ended.
     */
    method CutCell(t: int, ghost j: nat)
      requires Cells() && Spells(next, head, tail, lru) && j < |lru| && t == lru[j] && occupied == Sum(files, lru)
      modifies this`head, this`tail, this`next, this`occupied, this`lru
      ensures Cells() && lru == old(Without(lru, j)) && occupied == Sum(files, lru)
      ensures next[t] == if j == 0 && lru != [] then lru[0] else -1
      ensures Spells(next, head, tail, lru) <==> j == 0 || j < old(|lru|) - 1
    {
      hide Spells, Sum;
      ghost var q := lru;
      ListEnds(next, head, tail, q);
      WithoutDistinct(q, |files|, j);
      SumWithout(files, q, j);
      CellCut(next, head, tail, q, j);
      occupied := occupied - files[t].size;
      if t == head {
        head := next[head];
      } else if t == tail {
        tail := Before(t, j);
      } else {
        var pre := Before(t, j);
        next := next[pre := next[t]];
        next := next[t := -1];
      }
      lru := Without(q, j);
    }

    /** The walk from the head to the entry before another. */
    method Before(t: int, ghost j: nat) returns (pre: int)
      requires Cells() && Spells(next, head, tail, lru) && 0 < j < |lru| && t == lru[j]
      ensures pre == lru[j - 1]
    {
      pre := head;
      ghost var i := 0;
      NextIs(next, head, tail, lru, 0, j);
      while next[pre] != t
        invariant i < j && pre == lru[i]
        invariant next[pre] == t <==> i + 1 == j
        decreases j - i
      {
        NextIs(next, head, tail, lru, i, j);
        pre := next[pre];
        i := i + 1;
        NextIs(next, head, tail, lru, i, j);
      }
    }

    /** The chains after a deletion from what they were before: a file that was the first of several is left behind. */
    lemma AfterDelete(was: seq<seq<int>>, t: int, all: seq<int>, q: seq<int>, j: nat, several: bool)
      requires Cells() && Distinct(q, |files|) && j < |q| && t == q[j] && |was| == |table| && lru == Without(q, j)
      requires forall b | 0 <= b < |table| :: NoRepeat(table[b])
      requires forall b, x {:trigger x in was[b]} | 0 <= b < |was| && x in was[b] ::
                 0 <= x < |files| && x in all && Bucket(files[x].name) == b
      requires forall x | x in q :: x in was[Bucket(files[x].name)]
      requires forall b, x {:trigger x in table[b]} | 0 <= b < |table| :: x in table[b] <==> x in was[b] && (x != t || several)
      ensures Chains(all, lru)
      ensures NoStale() <==> !several && forall b, x {:trigger x in was[b]} | 0 <= b < |was| && x in was[b] :: x in q
    {
      WithoutDistinct(q, |files|, j);
      if several {
        var b := Bucket(files[t].name);
        assert t in table[b] && t !in lru;
      } else {
        forall b, x {:trigger x in was[b]} | 0 <= b < |was| && x in was[b] ensures x == t || x in table[b] {}
        assert t in q;
      }
    }

    /** One entry is evicted: from the list, then from its chain. */
    method EvictCell(t: int, ghost j: nat, ghost all: seq<int>) returns (after: int)
      requires Cells() && Spells(next, head, tail, lru) && j < |lru| && t == lru[j] && occupied == Sum(files, lru)
      requires Distinct(all, |files|) && (forall x | x in lru :: x in all) && Chains(all, lru)
      requires forall i, k | 0 <= i < k < |all| :: files[all[i]].name != files[all[k]].name
      modifies this`head, this`tail, this`next, this`occupied, this`lru, this`table
      ensures Cells() && lru == old(Without(lru, j)) && occupied == Sum(files, lru) && Chains(all, lru)
      ensures forall x | x in lru :: x in all
      ensures after == if j == 0 && lru != [] then lru[0] else -1
      ensures Spells(next, head, tail, lru) <==> j == 0 || j < old(|lru|) - 1
      ensures NoStale() <==> old(NoStale()) && !old(FirstOfSeveral(t))
      ensures table == old(table[Bucket(files[t].name) := Deleted(table[Bucket(files[t].name)], t)])
    {
      hide Spells, Sum, Deleted, NoRepeat, Distinct;
      ghost var q := lru;
      WithoutDistinct(q, |files|, j);
      ghost var was := table;
      CutCell(t, j);
      HashDelete(t, all, q);
      AfterDelete(was, t, all, q, j, old(FirstOfSeveral(t)));
      after := next[t];
    }

    ghost function Homes(): (h: seq<nat>)
      requires table != []
      reads this
      ensures |h| == |files| && forall t | 0 <= t < |files| :: h[t] == Bucket(files[t].name) < |table|
    {
      seq(|files|, t requires 0 <= t < |files| && table != [] reads this => Bucket(files[t].name))
    }

    /** What an eviction from `all` keeps throughout. */
    ghost predicate Steady(all: seq<int>, homes: seq<nat>)
      requires Cells()
      reads this
    {
      && homes == Homes() && occupied == Sum(files, lru) <= maxSize && Chains(all, lru)
      && (forall x | x in lru :: x in all)
    }

    /** The eviction from `all` has come to its end. */
    ghost predicate Finished(all: seq<int>, room: int, was: seq<seq<int>>, homes: seq<nat>, need: int)
      requires Cells() && Distinct(all, |files|)
      requires forall t | 0 <= t < |homes| :: homes[t] < |was|
      reads this
    {
      && Evicted(files, refs, all, room, need) == Outcome(lru, false)
      && (LosesTail(files, refs, all, room, need) <==> !Spells(next, head, tail, lru))
      && (Unlinks(was, homes, Leaving(files, refs, all, room, need)) <==> NoStale())
    }

    /** What holds while an eviction from `all` runs and stands at entry `iter`, at position `j`, or at the end. */
    ghost predicate Running(all: seq<int>, room: int, was: seq<seq<int>>, homes: seq<nat>, need: int, iter: int, j: nat)
      requires Cells() && Distinct(all, |files|)
      requires forall t | 0 <= t < |homes| :: homes[t] < |was|
      reads this
    {
      var left := maxSize - occupied;
      && Steady(all, homes)
      && if iter == -1 then Finished(all, room, was, homes, need)
         else
           && Spells(next, head, tail, lru) && j < |lru| && iter == lru[j] && (j > 0 ==> need > left)
           && (forall i | 0 <= i < j :: refs[lru[i]] != 0)
           && Evicted(files, refs, all, room, need) == Evicted(files, refs, lru, left, need)
           && (LosesTail(files, refs, all, room, need) <==> LosesTail(files, refs, lru, left, need))
           && (Unlinks(was, homes, Leaving(files, refs, all, room, need)) <==>
               NoStale() && Unlinks(table, homes, Leaving(files, refs, lru, left, need)))
    }

    /** The entry is pinned and stays. */
    method Skip(iter: int, ghost j: nat, ghost all: seq<int>, ghost room: int, ghost was: seq<seq<int>>,
                ghost homes: seq<nat>, ghost need: int)
      returns (after: int)
      requires Cells() && Distinct(all, |files|) && forall t | 0 <= t < |homes| :: homes[t] < |was|
      requires Running(all, room, was, homes, need, iter, j) && iter != -1
      requires need > maxSize - occupied && refs[iter] != 0
      ensures Running(all, room, was, homes, need, after, j + 1)
    {
      hide Sum, Evicted, Leaving, LosesTail, Chains, Deleted;
      after := next[iter];
      ListEnds(next, head, tail, lru);
      if j + 1 == |lru| {
        EvictBehind(files, refs, lru, maxSize - occupied, need, j + 1);
      }
    }

    /** The entry is evicted, from the front of the list. */
    method EvictFirst(iter: int, ghost all: seq<int>, ghost room: int, ghost was: seq<seq<int>>, ghost homes: seq<nat>,
                      ghost need: int)
      returns (after: int)
      requires Cells() && Distinct(all, |files|) && forall t | 0 <= t < |homes| :: homes[t] < |was|
      requires forall i, k | 0 <= i < k < |all| :: files[all[i]].name != files[all[k]].name
      requires Running(all, room, was, homes, need, iter, 0) && iter != -1
      requires need > maxSize - occupied && refs[iter] == 0
      modifies this`head, this`tail, this`next, this`occupied, this`lru, this`table
      ensures Cells() && Running(all, room, was, homes, need, after, 0) && |lru| < old(|lru|)
    {
      hide Sum, Evicted, Leaving, LosesTail, Chains, Deleted, Spells, NoRepeat, NoStale, Unlinks, Running, Without, Distinct;
      FrontDecides(iter, all, room, was, homes, need);
      after := EvictCell(iter, 0, all);
      RunsAgain(all, room, was, homes, need);
    }

    /** An entry at the front goes, and the eviction goes on with the rest. */
    lemma FrontDecides(iter: int, all: seq<int>, room: int, was: seq<seq<int>>, homes: seq<nat>, need: int)
      requires Cells() && Distinct(all, |files|) && forall t | 0 <= t < |homes| :: homes[t] < |was|
      requires Running(all, room, was, homes, need, iter, 0) && iter != -1
      requires need > maxSize - occupied && refs[iter] == 0
      ensures |lru| > 0 && iter == lru[0] && Spells(next, head, tail, lru) && Steady(all, homes) && 0 <= iter < |files|
      ensures var q, left := Without(lru, 0), maxSize - occupied + files[iter].size;
              && |q| < |lru| && Distinct(q, |files|) && Sum(files, lru) - files[iter].size == Sum(files, q)
              && homes[iter] == Bucket(files[iter].name) && files[iter].size >= 0
              && Evicted(files, refs, all, room, need) == Evicted(files, refs, q, left, need)
              && (LosesTail(files, refs, all, room, need) <==> LosesTail(files, refs, q, left, need))
              && (Unlinks(was, homes, Leaving(files, refs, all, room, need)) <==>
                  NoStale() && !FirstOfSeveral(iter) &&
                  Unlinks(table[homes[iter] := Deleted(table[homes[iter]], iter)], homes, Leaving(files, refs, q, left, need)))
    {
      hide Sum, Evicted, Leaving, LosesTail, Chains, Deleted, Spells, NoRepeat, NoStale, Unlinks, Without, Distinct, Running,
        Bucket, Steady, Homes;
      StandsAt(iter, 0, all, room, was, homes, need);
      RestIsWithout(files, lru);
      EvictFront(files, refs, lru, maxSize - occupied, need);
      UnlinksCons(table, homes, iter, Leaving(files, refs, Without(lru, 0), maxSize - occupied + files[iter].size, need));
    }

    /** What holds while an eviction stands at an entry. */
    lemma StandsAt(iter: int, j: nat, all: seq<int>, room: int, was: seq<seq<int>>, homes: seq<nat>, need: int)
      requires Cells() && Distinct(all, |files|) && forall t | 0 <= t < |homes| :: homes[t] < |was|
      requires Running(all, room, was, homes, need, iter, j) && iter != -1
      ensures j < |lru| && iter == lru[j] && Spells(next, head, tail, lru) && Steady(all, homes) && 0 <= iter < |files|
      ensures Evicted(files, refs, all, room, need) == Evicted(files, refs, lru, maxSize - occupied, need)
      ensures LosesTail(files, refs, all, room, need) <==> LosesTail(files, refs, lru, maxSize - occupied, need)
      ensures Unlinks(was, homes, Leaving(files, refs, all, room, need)) <==>
              NoStale() && Unlinks(table, homes, Leaving(files, refs, lru, maxSize - occupied, need))
      ensures homes == Homes()
    {
      hide Sum, Evicted, Leaving, LosesTail, Chains, Deleted, Spells, NoRepeat, NoStale, Unlinks;
    }

    lemma RunsAgain(all: seq<int>, room: int, was: seq<seq<int>>, homes: seq<nat>, need: int)
      requires Cells() && Distinct(all, |files|) && forall t | 0 <= t < |homes| :: homes[t] < |was|
      requires Steady(all, homes) && Spells(next, head, tail, lru)
      requires Evicted(files, refs, all, room, need) == Evicted(files, refs, lru, maxSize - occupied, need)
      requires LosesTail(files, refs, all, room, need) <==> LosesTail(files, refs, lru, maxSize - occupied, need)
      requires Unlinks(was, homes, Leaving(files, refs, all, room, need)) <==>
               NoStale() && Unlinks(table, homes, Leaving(files, refs, lru, maxSize - occupied, need))
      ensures Running(all, room, was, homes, need, if lru == [] then -1 else lru[0], 0)
    {
      hide Sum, Evicted, Leaving, LosesTail, Chains, Deleted, Spells, NoRepeat, NoStale, Unlinks;
      if lru == [] {
        EvictNothing(files, refs, maxSize - occupied, need);
        UnlinksNone(table, homes);
      }
    }

    /** An entry behind pinned ones decides the eviction. */
    lemma BehindDecides(iter: int, j: nat, all: seq<int>, room: int, was: seq<seq<int>>, homes: seq<nat>, need: int)
      requires Cells() && Distinct(all, |files|) && forall t | 0 <= t < |homes| :: homes[t] < |was|
      requires Running(all, room, was, homes, need, iter, j) && iter != -1 && j > 0
      requires need > maxSize - occupied && refs[iter] == 0
      ensures j < |lru| && iter == lru[j] && Spells(next, head, tail, lru) && Steady(all, homes) && 0 <= iter < |files|
      ensures Evicted(files, refs, all, room, need) == Outcome(Without(lru, j), false)
      ensures LosesTail(files, refs, all, room, need) <==> j == |lru| - 1
      ensures Unlinks(was, homes, Leaving(files, refs, all, room, need)) <==> NoStale() && !FirstOfSeveral(iter)
    {
      hide Sum, Evicted, Leaving, LosesTail, Chains, Deleted, Spells, NoRepeat, NoStale, Unlinks, Without;
      EvictBehind(files, refs, lru, maxSize - occupied, need, j);
      UnlinksOne(table, homes, iter);
    }

    /** The entry is evicted from behind pinned ones. */
    method EvictLater(iter: int, ghost j: nat, ghost all: seq<int>, ghost room: int, ghost was: seq<seq<int>>,
                      ghost homes: seq<nat>, ghost need: int)
      returns (after: int)
      requires Cells() && Distinct(all, |files|) && forall t | 0 <= t < |homes| :: homes[t] < |was|
      requires forall i, k | 0 <= i < k < |all| :: files[all[i]].name != files[all[k]].name
      requires Running(all, room, was, homes, need, iter, j) && iter != -1 && j > 0
      requires need > maxSize - occupied && refs[iter] == 0
      modifies this`head, this`tail, this`next, this`occupied, this`lru, this`table
      ensures Cells() && Steady(all, homes) && Finished(all, room, was, homes, need) && after == -1
    {
      hide Sum, Evicted, Leaving, LosesTail, Chains, Deleted, Spells, NoRepeat, NoStale, Unlinks, Without, Running;
      BehindDecides(iter, j, all, room, was, homes, need);
      SumWithout(files, lru, j);
      after := EvictCell(iter, j, all);
    }

    lemma AgreedIsChains()
      requires Agreed()
      ensures Chains(lru, lru) && NoStale()
    {
    }

    lemma AgreedIff(all: seq<int>)
      requires Cells() && Distinct(all, |files|) && Chains(all, lru) && forall x | x in lru :: x in all
      requires forall i, k | 0 <= i < k < |all| :: files[all[i]].name != files[all[k]].name
      requires occupied == Sum(files, lru) <= maxSize
      ensures Agreed() <==> Spells(next, head, tail, lru) && NoStale()
    {
      forall i, k | 0 <= i < k < |lru| ensures files[lru[i]].name != files[lru[k]].name {
        assert lru[i] in lru && lru[k] in lru;
        if files[lru[i]].name == files[lru[k]].name { SameNameSame(files, all, lru[i], lru[k]); }
      }
    }

    /**
     The part of evict_LRU_hash for a list of several entries. A freed entry is taken to read as before until its memory
     is used again (line 306). Which entries go, and what is reported, is what Evicted says; list, chains and count
     agree afterwards exactly if no chain kept a file that left and the end of the list was not lost.
     */
    method EvictSeveral(required: int) returns (ret: bool)
      requires Agreed() && |lru| > 1
      modifies this`head, this`tail, this`next, this`occupied, this`lru, this`table
      ensures Cells() && (ret ==> Spells(next, head, tail, lru))
      ensures forall t | t in lru :: t in old(lru)
      ensures var q, room := old(lru), old(maxSize - occupied);
              && Evicted(files, refs, q, room, required) == Outcome(lru, ret)
              && occupied == Sum(files, lru) <= maxSize
              && (Agreed() <==> Unlinks(old(table), old(Homes()), Leaving(files, refs, q, room, required)) &&
                                !LosesTail(files, refs, q, room, required))
    {
      hide Sum, Evicted, Leaving, LosesTail, Chains, Deleted, Spells;
      ghost var all, room, was, homes := lru, maxSize - occupied, table, Homes();
      ghost var j := 0;
      var iter := head;
      HeadIs(next, head, tail, lru);
      AgreedIsChains();
      while required > maxSize - occupied && iter != -1
        invariant Cells() && Running(all, room, was, homes, required, iter, j)
        decreases iter != -1, |lru| - j
      {
        if refs[iter] == 0 {
          ListEnds(next, head, tail, lru);
          if iter == head {
            iter := EvictFirst(iter, all, room, was, homes, required);
          } else {
            iter := EvictLater(iter, j, all, room, was, homes, required);
          }
          j := 0;
        } else {
          iter := Skip(iter, j, all, room, was, homes, required);
          j := j + 1;
        }
      }
      ret := iter != -1;
      if iter != -1 {
        EvictEnough(files, refs, lru, maxSize - occupied, required);
        UnlinksNone(table, homes);
      }
      AgreedIff(all);
    }

    /** Which entries an eviction leaves, and what it reports. A list of one entry is emptied whatever is required. */
    ghost function Eviction(required: int): Outcome
      requires Cells()
      reads this
    {
      if lru == [] then Outcome([], false)
      else if |lru| > 1 then Evicted(files, refs, lru, maxSize - occupied, required)
      else if refs[lru[0]] == 0 then Outcome([], true)
      else Outcome(lru, false)
    }

    /** Each file that leaves is unlinked from its chain, and the end of the list is not lost. */
    ghost predicate EvictsCleanly(required: int)
      requires Cells()
      reads this
    {
      |lru| > 1 ==>
        && Unlinks(table, Homes(), Leaving(files, refs, lru, maxSize - occupied, required))
        && !LosesTail(files, refs, lru, maxSize - occupied, required)
    }

    /** evict_LRU_hash. List, chains and count agree afterwards exactly if the eviction is a clean one. */
    method Evict(required: int) returns (ret: bool)
      requires Agreed()
      modifies this`head, this`tail, this`next, this`occupied, this`lru, this`table
      ensures Cells() && occupied == Sum(files, lru) <= maxSize && (ret ==> Spells(next, head, tail, lru))
      ensures forall t | t in lru :: t in old(lru)
      ensures Outcome(lru, ret) == old(Eviction(required))
      ensures Agreed() <==> old(EvictsCleanly(required))
      ensures |old(lru)| == 1 ==> 0 <= old(lru)[0] < |refs| && (ret <==> refs[old(lru)[0]] == 0)
      ensures |old(lru)| == 1 && ret ==> lru == [] && occupied == 0 && Agreed()
      ensures old(lru) == [] ==> !ret
      ensures |old(lru)| <= 1 && !ret ==>
                && lru == old(lru) && head == old(head) && tail == old(tail) && next == old(next)
                && table == old(table) && occupied == old(occupied) && Agreed()
    {
      hide Evicted, Leaving, LosesTail, Unlinks;
      CellsInList(lru);
      if head == -1 {
        return false;
      }
      ListEnds(next, head, tail, lru);
      if head == tail {
        if refs[head] != 0 {
          return false;
        }
        var b := Bucket(files[head].name);
        occupied, head, tail := 0, -1, -1;
        OnlyChain(b);
        table := table[b := []];
        lru := [];
        return true;
      }
      ret := EvictSeveral(required);
    }

    lemma CellsInList(q: seq<int>)
      requires Cells() && q == lru
      ensures forall i | 0 <= i < |q| :: 0 <= q[i] < |refs|
    {
    }

    /** The chains around the only file of the cache. */
    lemma OnlyChain(b: nat)
      requires Cells() && Hashed() && |lru| == 1 && b == Bucket(files[lru[0]].name)
      ensures forall c, t {:trigger t in table[c]} | 0 <= c < |table| && t in table[c] :: c == b
    {
    }

    /** The part of hashtable_insert after there is room: into the chain, and to the end of the list. */
    method InsertCell(file: File)
      requires Cells() && Spells(next, head, tail, lru) && occupied == Sum(files, lru)
      modifies this
      ensures Cells() && Spells(next, head, tail, lru) && occupied == Sum(files, lru) == old(occupied) + file.size
      ensures lru == old(lru + [|files|]) && files == old(files) + [file] && refs == old(refs) + [0]
      ensures var b := Bucket(file.name); b < old(|table|) && table == old(table)[b := old(table)[b] + [old(|files|)]]
    {
      hide Sum, Spells, Distinct;
      var n := |files|;
      HeadIs(next, head, tail, lru);
      AppendedCell(next, head, tail, lru);
      SumAppended(files, lru, file);
      if lru != [] { ListEnds(next, head, tail, lru); }
      files, refs, next := files + [file], refs + [0], next + [-1];
      var b := Bucket(file.name);
      table := table[b := table[b] + [n]];
      occupied := occupied + file.size;
      if head == -1 {
        assert lru + [n] == [n];
        head, tail := n, n;
      } else {
        TailInRange(lru, n);
        next := next[tail := n];
        tail := n;
      }
      lru := lru + [n];
    }

    /** Inserting a file of a new name into a cache that agrees with itself, within the budget, keeps it so. */
    lemma InsertKeeps(was: seq<seq<int>>, q: seq<int>, fs: seq<File>, file: File)
      requires Cells() && files == fs + [file] && lru == q + [|fs|] && Distinct(q, |fs|) && |was| == |table|
      requires table == was[Bucket(file.name) := was[Bucket(file.name)] + [|fs|]]
      requires Spells(next, head, tail, lru) && occupied == Sum(files, lru) <= maxSize
      requires forall i, j | 0 <= i < j < |q| :: fs[q[i]].name != fs[q[j]].name
      requires forall t | t in q :: fs[t].name != file.name
      requires forall b | 0 <= b < |was| :: NoRepeat(was[b])
      requires forall b, t {:trigger t in was[b]} | 0 <= b < |was| && t in was[b] ::
                 0 <= t < |fs| && t in q && Bucket(fs[t].name) == b
      requires forall t | t in q :: t in was[Bucket(fs[t].name)]
      ensures Agreed()
    {
      hide Sum, Spells;
      var n, b := |fs|, Bucket(file.name);
      forall c | 0 <= c < |table| ensures NoRepeat(table[c]) {
        forall i, j | 0 <= i < j < |table[c]| ensures table[c][i] != table[c][j] {
          if c == b && j == |was[b]| { assert was[b][i] in was[b]; }
        }
      }
      forall c, t {:trigger t in table[c]} | 0 <= c < |table| && t in table[c]
        ensures 0 <= t < |files| && t in lru && Bucket(files[t].name) == c
      {
        if t != n { assert t in was[c]; }
      }
      forall t | t in lru ensures t in table[Bucket(files[t].name)] {
        if t != n { assert t in q; }
      }
      forall i, j | 0 <= i < j < |lru| ensures files[lru[i]].name != files[lru[j]].name {
        if j == |q| { assert q[i] in q; }
      }
    }

    /** A cache that agrees with itself after an insertion did before. */
    lemma InsertReflects(was: seq<seq<int>>, q: seq<int>, fs: seq<File>, file: File)
      requires Agreed() && files == fs + [file] && lru == q + [|fs|] && Distinct(q, |fs|) && |was| == |table|
      requires table == was[Bucket(file.name) := was[Bucket(file.name)] + [|fs|]]
      ensures forall i, j | 0 <= i < j < |q| :: fs[q[i]].name != fs[q[j]].name
      ensures forall b | 0 <= b < |was| :: NoRepeat(was[b])
      ensures forall b, t {:trigger t in was[b]} | 0 <= b < |was| && t in was[b] ::
                0 <= t < |fs| && t in q && Bucket(fs[t].name) == b
      ensures forall t | t in q :: t in was[Bucket(fs[t].name)]
    {
      hide Sum, Spells;
      var n, b := |fs|, Bucket(file.name);
      assert forall i | 0 <= i < |q| :: lru[i] == q[i];
      forall c | 0 <= c < |was| ensures NoRepeat(was[c]) {
        assert NoRepeat(table[c]);
        assert forall i | 0 <= i < |was[c]| :: table[c][i] == was[c][i];
      }
      forall c, t {:trigger t in was[c]} | 0 <= c < |was| && t in was[c]
        ensures 0 <= t < |fs| && t in q && Bucket(fs[t].name) == c
      {
        assert t in table[c];
        if t == n {
          LastIsNew(was[b], n);
        }
      }
      forall t | t in q ensures t in was[Bucket(fs[t].name)] {
        assert t in lru;
      }
    }

    lemma LastIsNew(chain: seq<int>, t: int)
      requires NoRepeat(chain + [t])
      ensures t !in chain
    {
      forall i | 0 <= i < |chain| ensures chain[i] != t {
        assert (chain + [t])[i] == chain[i] && (chain + [t])[|chain|] == t;
      }
    }

    /** Insertion at the end neither makes nor mends a disagreement. */
    lemma InsertIff(was: seq<seq<int>>, q: seq<int>, fs: seq<File>, file: File)
      requires Cells() && files == fs + [file] && lru == q + [|fs|] && Distinct(q, |fs|) && |was| == |table|
      requires table == was[Bucket(file.name) := was[Bucket(file.name)] + [|fs|]]
      requires Spells(next, head, tail, lru) && occupied == Sum(files, lru) <= maxSize
      requires forall t | t in q :: fs[t].name != file.name
      ensures Agreed() <==>
              && (forall i, j | 0 <= i < j < |q| :: fs[q[i]].name != fs[q[j]].name)
              && (forall b | 0 <= b < |was| :: NoRepeat(was[b]))
              && (forall b, t {:trigger t in was[b]} | 0 <= b < |was| && t in was[b] ::
                    0 <= t < |fs| && t in q && Bucket(fs[t].name) == b)
              && (forall t | t in q :: t in was[Bucket(fs[t].name)])
    {
      hide Sum, Spells, NoRepeat;
      if Agreed() {
        InsertReflects(was, q, fs, file);
      } else if && (forall i, j | 0 <= i < j < |q| :: fs[q[i]].name != fs[q[j]].name)
                && (forall b | 0 <= b < |was| :: NoRepeat(was[b]))
                && (forall b, t {:trigger t in was[b]} | 0 <= b < |was| && t in was[b] ::
                      0 <= t < |fs| && t in q && Bucket(fs[t].name) == b)
                && (forall t | t in q :: t in was[Bucket(fs[t].name)]) {
        InsertKeeps(was, q, fs, file);
      }
    }

    /** A file that fits goes into the chain and to the end of the list, and the cache agrees as it did. */
    method Place(file: File)
      requires Cells() && Spells(next, head, tail, lru) && occupied == Sum(files, lru) && occupied + file.size <= maxSize
      requires forall t | t in lru :: files[t].name != file.name
      modifies this
      ensures Cells() && occupied == Sum(files, lru) <= maxSize && Agreed() == old(Agreed())
      ensures lru == old(lru + [|files|]) && files == old(files) + [file] && refs == old(refs) + [0]
    {
      hide Sum, Spells, NoRepeat, Distinct;
      ghost var was, r, fs := table, lru, files;
      CellsDistinct();
      InsertCell(file);
      InsertIff(was, r, fs, file);
    }

    lemma CellsDistinct()
      requires Cells()
      ensures Distinct(lru, |files|)
    {
    }

    /** A reported success means that there is room. */
    lemma ReportedMeansRoom(need: int)
      requires Agreed() && need <= maxSize && Eviction(need).ret
      ensures Distinct(Eviction(need).left, |files|) && Sum(files, Eviction(need).left) + need <= maxSize
    {
      hide Evicted, Sum;
      if |lru| > 1 {
        EnoughAfter(files, refs, lru, maxSize - occupied, need);
      } else {
        SumNone(files);
      }
    }

    /**
     hashtable_insert of a file whose name is not cached. What is inserted is the most recently used entry; the cache
     agrees with itself afterwards exactly if it did when room had been made. A failure leaves what Evict leaves.
     */
    method Insert(file: File) returns (inserted: bool)
      requires Agreed() && forall t | t in lru :: files[t].name != file.name
      modifies this
      ensures Cells() && occupied == Sum(files, lru) <= maxSize
      ensures inserted <==>
                file.size <= maxSize && (file.size <= old(maxSize - occupied) || old(Eviction(file.size).ret))
      ensures var evicts := maxSize >= file.size > old(maxSize - occupied);
              && lru == (if evicts then old(Eviction(file.size).left) else old(lru)) + (if inserted then [old(|files|)] else [])
              && (Agreed() <==> !evicts || old(EvictsCleanly(file.size)))
      ensures files == old(files) + (if inserted then [file] else [])
      ensures refs == old(refs) + (if inserted then [0] else [])
      ensures |old(lru)| == 1 ==>
                && 0 <= old(lru)[0] < |old(refs)|
                && (inserted <==> file.size <= maxSize &&
                                  (old(refs)[old(lru)[0]] == 0 || file.size <= old(maxSize - occupied)))
      ensures old(lru) == [] ==> (inserted <==> file.size <= maxSize)
      ensures inserted && |old(lru)| <= 1 ==>
                Agreed() && lru == (if file.size > old(maxSize - occupied) then [] else old(lru)) + [old(|files|)]
    {
      hide Evicted, Leaving, LosesTail, Unlinks, Sum, Spells, Hashed;
      inserted := false;
      SumNone(files);
      if file.size > maxSize {
        return;
      }
      if file.size > maxSize - occupied {
        if Eviction(file.size).ret {
          ReportedMeansRoom(file.size);
        }
        inserted := Evict(file.size);
        if !inserted {
          return;
        }
      }
      Place(file);
      inserted := true;
    }
  }

  /** Every one of the files is unlinked from its chain when it leaves, one after the other. */
  ghost predicate Unlinks(table: seq<seq<int>>, homes: seq<nat>, leaving: seq<int>)
    requires forall t | 0 <= t < |homes| :: homes[t] < |table|
    decreases |leaving|
  {
    leaving == [] || !(0 <= leaving[0] < |homes|) ||
    var t := leaving[0];
    var chain := table[homes[t]];
    !(|chain| > 1 && chain[0] == t) && Unlinks(table[homes[t] := Deleted(chain, t)], homes, leaving[1..])
  }

  lemma UnlinksNone(table: seq<seq<int>>, homes: seq<nat>)
    requires forall t | 0 <= t < |homes| :: homes[t] < |table|
    ensures Unlinks(table, homes, [])
  {
  }

  lemma UnlinksCons(table: seq<seq<int>>, homes: seq<nat>, t: int, rest: seq<int>)
    requires 0 <= t < |homes| && forall x | 0 <= x < |homes| :: homes[x] < |table|
    ensures var chain := table[homes[t]];
            Unlinks(table, homes, [t] + rest) <==>
            !(|chain| > 1 && chain[0] == t) && Unlinks(table[homes[t] := Deleted(chain, t)], homes, rest)
  {
    assert ([t] + rest)[1..] == rest;
  }

  lemma UnlinksOne(table: seq<seq<int>>, homes: seq<nat>, t: int)
    requires 0 <= t < |homes| && forall x | 0 <= x < |homes| :: homes[x] < |table|
    ensures var chain := table[homes[t]]; Unlinks(table, homes, [t]) <==> !(|chain| > 1 && chain[0] == t)
  {
    assert [t][1..] == [];
  }

  /** A reported success means that there is room, and that the end of the list was not lost. */
  lemma EnoughAfter(files: seq<File>, refs: seq<int>, q: seq<int>, room: int, need: int)
    requires Distinct(q, |files|) && |refs| == |files| && Evicted(files, refs, q, room, need).ret
    ensures var left := Evicted(files, refs, q, room, need).left;
            Distinct(left, |files|) && need <= room + Sum(files, q) - Sum(files, left)
    ensures !LosesTail(files, refs, q, room, need)
  {
    var k := Front(files, refs, q, room, need);
    SumSplit(files, q, k);
  }

  lemma {:induction false} SumSplit(files: seq<File>, q: seq<int>, k: nat)
    requires Distinct(q, |files|) && k <= |q|
    ensures Sum(files, q) == Sum(files, q[..k]) + Sum(files, q[k..])
    decreases k
  {
    if k == 0 {
      assert q[0..] == q;
    } else {
      SumSplit(files, q[1..], k - 1);
      assert q[..k][1..] == q[1..][..k - 1] && q[1..][k - 1..] == q[k..];
    }
  }

  /** A file that is first in a chain of two, and leaves, stays in the chain. */
  lemma StaleHappens()
    ensures Deleted([0, 1], 0) == [0, 1] && !Unlinks([[0, 1]], [0, 0], [0])
    ensures Deleted([0, 1], 1) == [0] && Unlinks([[0, 1]], [0, 0], [1])
  {
    assert [0, 1][1..] == [1] && [1][1..] == [];
    UnlinksOne([[0, 1]], [0, 0], 0);
    UnlinksOne([[0, 1]], [0, 0], 1);
  }

  lemma RestIsWithout(files: seq<File>, q: seq<int>)
    requires Distinct(q, |files|) && q != []
    ensures Without(q, 0) == q[1..] && Distinct(q[1..], |files|) && 0 <= q[0] < |files|
    ensures Sum(files, q) == files[q[0]].size + Sum(files, q[1..])
  {
    SumWithout(files, q, 0);
    WithoutDistinct(q, |files|, 0);
    assert Without(q, 0) == q[1..];
  }

  lemma LastMoved(q: seq<int>)
    requires q != []
    ensures Without(q, |q| - 1) + [q[|q| - 1]] == q
  {
  }

  lemma CellsInRange(next: seq<int>, head: int, tail: int, q: seq<int>)
    requires Spells(next, head, tail, q) && q != []
    ensures forall i | 0 <= i < |q| :: 0 <= q[i] < |next|
    ensures head == q[0] && tail == q[|q| - 1]
  {
  }

  lemma SumNone(files: seq<File>)
    ensures Sum(files, []) == 0
  {
  }

  lemma TailInRange(q: seq<int>, n: nat)
    requires Distinct(q, n) && q != []
    ensures 0 <= q[|q| - 1] < n
  {
  }

  lemma HeadIs(next: seq<int>, head: int, tail: int, q: seq<int>)
    requires Spells(next, head, tail, q)
    ensures head == if q == [] then -1 else q[0]
  {
  }

  lemma DeletedFrom(table: seq<seq<int>>, b: nat, t: int)
    requires b < |table| && t in table[b] && forall c | 0 <= c < |table| :: NoRepeat(table[c])
    requires forall c | 0 <= c < |table| && c != b :: t !in table[c]
    ensures var after := table[b := Deleted(table[b], t)];
            && (forall c | 0 <= c < |table| :: NoRepeat(after[c]))
            && forall c, x {:trigger x in after[c]} | 0 <= c < |table| ::
                 x in after[c] <==> x in table[c] && (x != t || (|table[b]| > 1 && table[b][0] == t))
  {
    DeletedIff(table[b], t);
  }

  lemma DeletedAt(chain: seq<int>, t: int, j: nat)
    requires |chain| > 1 && j < |chain| && chain[j] == t && forall i | 0 <= i < j :: chain[i] != t
    ensures Deleted(chain, t) == if j == 0 then chain else chain[..j] + chain[j + 1..]
  {
    hide Cut;
    if j > 0 {
      CutAt(chain[1..], t, j - 1);
      var front, back := chain[1..][..j - 1], chain[1..][j..];
      assert back == chain[j + 1..];
      assert [chain[0]] + front == chain[..j];
      assert [chain[0]] + (front + back) == [chain[0]] + front + back;
    }
  }

  lemma SameNameSame(files: seq<File>, q: seq<int>, s: int, t: int)
    requires Distinct(q, |files|) && s in q && t in q && files[s].name == files[t].name
    requires forall i, j | 0 <= i < j < |q| :: files[q[i]].name != files[q[j]].name
    ensures s == t
  {
    var i :| 0 <= i < |q| && q[i] == s;
    var j :| 0 <= j < |q| && q[j] == t;
  }

  lemma {:induction false} SumMoved(files: seq<File>, q: seq<int>, p: nat)
    requires Distinct(q, |files|) && p < |q|
    ensures var r := Without(q, p) + [q[p]]; Distinct(r, |files|) && Sum(files, r) == Sum(files, q)
    ensures forall t :: t in Without(q, p) + [q[p]] <==> t in q
  {
    WithoutDistinct(q, |files|, p);
    SumWithout(files, q, p);
    SumSnoc(files, Without(q, p), q[p]);
  }

  lemma {:induction false} SumSnoc(files: seq<File>, q: seq<int>, t: int)
    requires Distinct(q, |files|) && 0 <= t < |files| && t !in q
    ensures Distinct(q + [t], |files|) && Sum(files, q + [t]) == Sum(files, q) + files[t].size
    decreases |q|
  {
    hide Distinct;
    SnocDistinct(q, |files|, t);
    if q == [] {
      assert q + [t] == [t] && [t][1..] == [];
    } else {
      RestIsWithout(files, q);
      SumSnoc(files, q[1..], t);
      assert (q + [t])[1..] == q[1..] + [t];
    }
  }

  lemma SnocDistinct(q: seq<int>, n: nat, t: int)
    requires Distinct(q, n) && 0 <= t < n && t !in q
    ensures Distinct(q + [t], n)
  {
  }

  ghost function PositionIn(files: seq<File>, q: seq<int>, name: Name): (i: nat)
    requires Distinct(q, |files|)
    ensures i <= |q| && (i < |q| ==> files[q[i]].name == name)
    ensures forall j | 0 <= j < i :: files[q[j]].name != name
  {
    if q == [] || files[q[0]].name == name then 0
    else
      var i := PositionIn(files, q[1..], name);
      assert forall j | 0 < j < i + 1 :: q[j] == q[1..][j - 1];
      1 + i
  }

  lemma MovedNames(files: seq<File>, q: seq<int>, p: nat)
    requires Distinct(q, |files|) && p < |q|
    requires forall i, j | 0 <= i < j < |q| :: files[q[i]].name != files[q[j]].name
    ensures var r := Without(q, p) + [q[p]];
            Distinct(r, |files|) && forall i, j | 0 <= i < j < |r| :: files[r[i]].name != files[r[j]].name
  {
    var r := Without(q, p) + [q[p]];
    forall i | 0 <= i < |r| ensures r[i] == q[if i == |r| - 1 then p else if i < p then i else i + 1] {}
  }
}
