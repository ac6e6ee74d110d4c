/**
 The list of cached files from the least to the most recently used (webserver/server_thread.c), as values: cells
 linked by `next`, what moving and cutting out cells does to the list, and what an eviction removes from it.
 */
module CacheLists {
  import opened Sequences

  type Name = seq<char>

  /** struct file_data, but for its contents. */
  datatype File = File(name: Name, size: nat)

  /** The links from `head` to `tail` spell `q` and end in -1; of an empty list only the head counts. */
  ghost predicate Spells(next: seq<int>, head: int, tail: int, q: seq<int>)
  {
    && Distinct(q, |next|)
    && head == (if q == [] then -1 else q[0])
    && (q != [] ==> tail == q[|q| - 1] && next[tail] == -1)
    && (forall i | 0 <= i < |q| - 1 :: next[q[i]] == q[i + 1])
  }

  /** A new cell at the end. */
  lemma AppendedCell(next: seq<int>, head: int, tail: int, q: seq<int>)
    requires Spells(next, head, tail, q)
    ensures q == [] ==> Spells(next + [-1], |next|, |next|, [|next|])
    ensures q != [] ==> Spells((next + [-1])[tail := |next|], head, |next|, q + [|next|])
  {
    if q != [] {
      var n, r := (next + [-1])[tail := |next|], q + [|next|];
      forall i | 0 <= i < |r| - 1 ensures n[r[i]] == r[i + 1] {
        if i < |q| - 1 { assert q[i] != q[|q| - 1]; }
      }
    }
  }

  /** The first cell leaves; its own link does not matter any more. */
  lemma HeadCut(next: seq<int>, head: int, tail: int, q: seq<int>)
    requires Spells(next, head, tail, q) && q != []
    ensures Spells(next, next[head], tail, q[1..])
  {
    assert forall i | 0 <= i < |q| - 1 :: q[1..][i] == q[i + 1];
  }

  /** A cell in between leaves. */
  lemma MiddleCut(next: seq<int>, head: int, tail: int, q: seq<int>, i: nat)
    requires Spells(next, head, tail, q) && 0 < i < |q| - 1
    ensures Spells(next[q[i - 1] := next[q[i]]][q[i] := -1], head, tail, Without(q, i))
  {
    var r, n := Without(q, i), next[q[i - 1] := next[q[i]]][q[i] := -1];
    WithoutDistinct(q, |next|, i);
    forall k | 0 <= k < |r| - 1 ensures n[r[k]] == r[k + 1] {
      if k < i - 1 {
        assert r[k] == q[k] && r[k + 1] == q[k + 1] && q[k] != q[i - 1] && q[k] != q[i];
      } else if k == i - 1 {
        assert r[k] == q[i - 1] && r[k + 1] == q[i + 1];
      } else {
        assert r[k] == q[k + 1] && r[k + 1] == q[k + 2] && q[k + 1] != q[i] && q[k + 1] != q[i - 1];
      }
    }
  }

  /** The last cell leaves, but the one before it still links to it: the list is not ended. */
  lemma TailCut(next: seq<int>, head: int, tail: int, q: seq<int>)
    requires Spells(next, head, tail, q) && |q| > 1
    ensures var i := |q| - 1; Distinct(Without(q, i), |next|) && Without(q, i) == q[..i]
    ensures var i := |q| - 1; !Spells(next, head, q[i - 1], Without(q, i)) && next[q[i - 1]] == q[i] != -1
  {
    WithoutDistinct(q, |next|, |q| - 1);
  }

  /** What cutting out cell `j` does to the links, the head and the tail (lines 238-262). */
  function CutNext(next: seq<int>, q: seq<int>, j: nat): seq<int>
    requires Distinct(q, |next|) && j < |q|
  {
    if 0 < j < |q| - 1 then next[q[j - 1] := next[q[j]]][q[j] := -1] else next
  }

  /** The list stays one unless the last of several cells is cut out. */
  lemma CellCut(next: seq<int>, head: int, tail: int, q: seq<int>, j: nat)
    requires Spells(next, head, tail, q) && j < |q|
    ensures var n := CutNext(next, q, j);
            && (Spells(n, if j == 0 then next[head] else head, if 0 < j == |q| - 1 then q[j - 1] else tail, Without(q, j)) <==>
                j == 0 || j < |q| - 1)
            && n[q[j]] == if j == 0 && |q| > 1 then q[1] else -1
  {
    if j == 0 {
      HeadCut(next, head, tail, q);
      assert Without(q, 0) == q[1..];
    } else if j == |q| - 1 {
      TailCut(next, head, tail, q);
    } else {
      MiddleCut(next, head, tail, q, j);
    }
  }

  lemma NextIs(next: seq<int>, head: int, tail: int, q: seq<int>, i: nat, j: nat)
    requires Spells(next, head, tail, q) && i < j < |q|
    ensures next[q[i]] == q[j] <==> i + 1 == j
    ensures i + 1 < |q| && next[q[i]] == q[i + 1]
  {
  }

  lemma ListEnds(next: seq<int>, head: int, tail: int, q: seq<int>)
    requires Spells(next, head, tail, q) && q != []
    ensures head == tail <==> |q| == 1
    ensures forall i | 0 <= i < |q| :: next[q[i]] == -1 <==> i == |q| - 1
    ensures forall i | 0 <= i < |q| :: (q[i] == head <==> i == 0) && (q[i] == tail <==> i == |q| - 1)
  {
    forall i | 0 <= i < |q| ensures next[q[i]] == -1 <==> i == |q| - 1 {
      if i < |q| - 1 { assert next[q[i]] == q[i + 1] && 0 <= q[i + 1]; }
    }
  }

  /** A cell, linked out of its place, is linked in again at the end. */
  lemma MovedToTail(next: seq<int>, head: int, tail: int, q: seq<int>, i: nat)
    requires Spells(next, head, tail, q) && i < |q| - 1
    ensures var t, n := q[i], if i == 0 then next else next[q[i - 1] := next[q[i]]];
            Spells(n[t := -1][tail := t], if i == 0 then next[t] else head, t, Without(q, i) + [t])
  {
    var t, r := q[i], Without(q, i);
    var n := (if i == 0 then next else next[q[i - 1] := next[q[i]]])[t := -1][tail := t];
    var m := r + [t];
    WithoutDistinct(q, |next|, i);
    forall k | 0 <= k < |m| - 1 ensures n[m[k]] == m[k + 1] {
      if k < i - 1 {
        assert m[k] == q[k] && m[k + 1] == q[k + 1] && q[k] != q[i - 1] && q[k] != t && q[k] != tail;
      } else if k == i - 1 {
        assert m[k] == q[i - 1] && m[k + 1] == q[i + 1];
      } else if k < |q| - 2 {
        assert m[k] == q[k + 1] && m[k + 1] == q[k + 2] && q[k + 1] != t && q[k + 1] != tail;
        assert i > 0 ==> q[k + 1] != q[i - 1];
      } else {
        assert m[k] == tail && m[k + 1] == t;
      }
    }
    forall a, b | 0 <= a < b < |m| ensures m[a] != m[b] {
      if b == |m| - 1 { assert m[a] in r; }
    }
  }

  // ---- sizes

  ghost function Sum(files: seq<File>, q: seq<int>): nat
    requires Distinct(q, |files|)
  {
    if q == [] then 0 else files[q[0]].size + Sum(files, q[1..])
  }

  lemma {:induction false} SumWithout(files: seq<File>, q: seq<int>, i: nat)
    requires Distinct(q, |files|) && i < |q|
    ensures Distinct(Without(q, i), |files|) && Sum(files, Without(q, i)) == Sum(files, q) - files[q[i]].size
    decreases |q|
  {
    WithoutDistinct(q, |files|, i);
    if i == 0 {
      assert Without(q, 0) == q[1..];
    } else {
      SumWithout(files, q[1..], i - 1);
      assert Without(q, i)[1..] == Without(q[1..], i - 1);
    }
  }

  lemma {:induction false} SumAppended(files: seq<File>, q: seq<int>, f: File)
    requires Distinct(q, |files|)
    ensures Distinct(q + [|files|], |files + [f]|) && Sum(files + [f], q + [|files|]) == Sum(files, q) + f.size
    decreases |q|
  {
    if q == [] {
      assert q + [|files|] == [|files|];
      assert [|files|][1..] == [];
    } else {
      SumAppended(files, q[1..], f);
      assert (q + [|files|])[1..] == q[1..] + [|files|];
    }
  }

  // ---- what an eviction from a list of several entries removes

  /** How many entries leave from the front: unpinned ones, as long as there is not enough room. */
  ghost function Front(files: seq<File>, refs: seq<int>, q: seq<int>, room: int, need: int): (k: nat)
    requires Distinct(q, |files|) && |refs| == |files|
    ensures k <= |q|
  {
    if q == [] || need <= room || refs[q[0]] != 0 then 0
    else 1 + Front(files, refs, q[1..], room + files[q[0]].size, need)
  }

  /** The first unpinned entry; the number of entries if there is none. */
  ghost function Unpinned(refs: seq<int>, q: seq<int>): (m: nat)
    requires Distinct(q, |refs|)
    ensures m <= |q| && (forall i | 0 <= i < m :: refs[q[i]] != 0) && (m < |q| ==> refs[q[m]] == 0)
  {
    if q == [] || refs[q[0]] == 0 then 0
    else
      var m := Unpinned(refs, q[1..]);
      assert forall i | 0 < i < m + 1 :: q[i] == q[1..][i - 1];
      1 + m
  }

  /** The entries left, and whether the eviction is reported as successful. */
  datatype Outcome = Outcome(left: seq<int>, ret: bool)

  ghost function Evicted(files: seq<File>, refs: seq<int>, q: seq<int>, room: int, need: int): Outcome
    requires Distinct(q, |files|) && |refs| == |files|
  {
    var k := Front(files, refs, q, room, need);
    var rest := q[k..];
    var room2 := room + Sum(files, q[..k]);
    if rest == [] then Outcome([], false)
    else if need <= room2 then Outcome(rest, true)
    else
      var m := Unpinned(refs, rest);
      Outcome(if m < |rest| then Without(rest, m) else rest, false)
  }

  /** The entries that an eviction removes, in order. */
  ghost function Leaving(files: seq<File>, refs: seq<int>, q: seq<int>, room: int, need: int): seq<int>
    requires Distinct(q, |files|) && |refs| == |files|
  {
    var k := Front(files, refs, q, room, need);
    var m := Unpinned(refs, q[k..]);
    q[..k] + if k < |q| && need > room + Sum(files, q[..k]) && m < |q[k..]| then [q[k..][m]] else []
  }

  /** The last entry is removed from behind a pinned one. */
  ghost predicate LosesTail(files: seq<File>, refs: seq<int>, q: seq<int>, room: int, need: int)
    requires Distinct(q, |files|) && |refs| == |files|
  {
    var k := Front(files, refs, q, room, need);
    k < |q| && need > room + Sum(files, q[..k]) && Unpinned(refs, q[k..]) == |q[k..]| - 1
  }

  /** One entry leaves from the front. */
  lemma EvictFront(files: seq<File>, refs: seq<int>, q: seq<int>, room: int, need: int)
    requires Distinct(q, |files|) && |refs| == |files| && q != [] && refs[q[0]] == 0 && need > room
    ensures var room2, r := room + files[q[0]].size, q[1..];
            && Evicted(files, refs, q, room, need) == Evicted(files, refs, r, room2, need)
            && Leaving(files, refs, q, room, need) == [q[0]] + Leaving(files, refs, r, room2, need)
            && (LosesTail(files, refs, q, room, need) <==> LosesTail(files, refs, r, room2, need))
  {
    hide Sum, Unpinned, Front, Distinct;
    PartsDistinct(q, |files|, 1);
    var r, room2 := q[1..], room + files[q[0]].size;
    var k := Front(files, refs, r, room2, need);
    FrontStep(files, refs, q, room, need);
    SumStep(files, q, k);
    var rest, front := q[k + 1..], q[..k + 1];
    assert rest == r[k..] && front == [q[0]] + r[..k];
    var last := Leaving(files, refs, r, room2, need)[k..];
    assert Leaving(files, refs, r, room2, need) == r[..k] + last;
    assert Leaving(files, refs, q, room, need) == front + last;
  }

  lemma SumOfNone(files: seq<File>, q: seq<int>)
    requires Distinct(q, |files|)
    ensures Distinct(q[..0], |files|) && Sum(files, q[..0]) == 0
  {
    assert q[..0] == [];
  }

  lemma FrontStep(files: seq<File>, refs: seq<int>, q: seq<int>, room: int, need: int)
    requires Distinct(q, |files|) && |refs| == |files| && q != [] && refs[q[0]] == 0 && need > room
    ensures Front(files, refs, q, room, need) == 1 + Front(files, refs, q[1..], room + files[q[0]].size, need)
  {
  }

  lemma SumStep(files: seq<File>, q: seq<int>, k: nat)
    requires Distinct(q, |files|) && q != [] && k <= |q[1..]|
    ensures Sum(files, q[..k + 1]) == files[q[0]].size + Sum(files, q[1..][..k])
  {
    assert q[..k + 1][1..] == q[1..][..k];
  }

  lemma EvictNothing(files: seq<File>, refs: seq<int>, room: int, need: int)
    requires |refs| == |files|
    ensures Evicted(files, refs, [], room, need) == Outcome([], false) && Leaving(files, refs, [], room, need) == []
    ensures !LosesTail(files, refs, [], room, need)
  {
  }

  lemma EvictEnough(files: seq<File>, refs: seq<int>, q: seq<int>, room: int, need: int)
    requires Distinct(q, |files|) && |refs| == |files| && q != [] && need <= room
    ensures Evicted(files, refs, q, room, need) == Outcome(q, true) && Leaving(files, refs, q, room, need) == []
    ensures !LosesTail(files, refs, q, room, need)
  {
    assert q[..0] == [] && q[0..] == q;
  }

  /** The first unpinned entry stands behind a pinned one, or there is none. */
  lemma EvictBehind(files: seq<File>, refs: seq<int>, q: seq<int>, room: int, need: int, j: nat)
    requires Distinct(q, |files|) && |refs| == |files| && need > room && j <= |q| && (j == 0 ==> q == [])
    requires (forall i | 0 <= i < j :: refs[q[i]] != 0) && (j < |q| ==> refs[q[j]] == 0)
    ensures Evicted(files, refs, q, room, need) == Outcome(if j < |q| then Without(q, j) else q, false)
    ensures Leaving(files, refs, q, room, need) == if j < |q| then [q[j]] else []
    ensures LosesTail(files, refs, q, room, need) <==> q != [] && j == |q| - 1
  {
    assert q[..0] == [] && q[0..] == q;
    assert Unpinned(refs, q) == j;
  }

  lemma PartsDistinct(q: seq<int>, n: nat, k: nat)
    requires Distinct(q, n) && k <= |q|
    ensures Distinct(q[k..], n) && Distinct(q[..k], n) && (q != [] ==> 0 <= q[0] < n)
  {
  }

  /** What leaves from the front is unpinned, and one entry less would not have been enough. */
  lemma {:induction false} FrontLeaves(files: seq<File>, refs: seq<int>, q: seq<int>, room: int, need: int)
    requires Distinct(q, |files|) && |refs| == |files|
    ensures var k := Front(files, refs, q, room, need);
            && (forall i | 0 <= i < k :: refs[q[i]] == 0)
            && (forall j: nat | j < k :: room + Sum(files, q[..j]) < need)
            && (k < |q| ==> need <= room + Sum(files, q[..k]) || refs[q[k]] != 0)
    decreases |q|
  {
    var k := Front(files, refs, q, room, need);
    assert q[..0] == [];
    if k > 0 {
      var r := q[1..];
      FrontLeaves(files, refs, r, room + files[q[0]].size, need);
      forall j: nat | 0 < j <= k ensures Sum(files, q[..j]) == files[q[0]].size + Sum(files, r[..j - 1]) {
        assert q[..j][1..] == r[..j - 1];
      }
      assert forall i | 0 < i < |q| :: q[i] == r[i - 1];
    }
  }

  lemma {:induction false} SumMonotone(files: seq<File>, q: seq<int>, j: nat, k: nat)
    requires Distinct(q, |files|) && j <= k <= |q|
    ensures Sum(files, q[..j]) <= Sum(files, q[..k])
    decreases k
  {
    if j > 0 {
      assert q[..j][1..] == q[1..][..j - 1] && q[..k][1..] == q[1..][..k - 1];
      SumMonotone(files, q[1..], j - 1, k - 1);
    }
  }

  /**
   An eviction from several entries is reported as successful exactly when unpinned entries from the front, but not
   all entries, give room enough.
   */
  lemma SucceedsIff(files: seq<File>, refs: seq<int>, q: seq<int>, room: int, need: int)
    requires Distinct(q, |files|) && |refs| == |files| && need > room
    ensures Evicted(files, refs, q, room, need).ret <==>
            exists k :: 0 < k < |q| && (forall i | 0 <= i < k :: refs[q[i]] == 0) && need <= room + Sum(files, q[..k])
  {
    hide Sum, Front, Unpinned;
    var k := Front(files, refs, q, room, need);
    FrontLeaves(files, refs, q, room, need);
    SumOfNone(files, q);
    if l :| 0 < l < |q| && (forall i | 0 <= i < l :: refs[q[i]] == 0) && need <= room + Sum(files, q[..l]) {
      if k < l {
        SumMonotone(files, q, k, l);
      }
    }
  }

  /**
   The first `k` entries are unpinned and all needed, and either they give room enough, or entry `k` is pinned or there
   is none; `m` is the first unpinned entry from there on. Then the `k` entries leave, and if they are not enough,
   entry `m` does too.
   */
  lemma WhichLeave(files: seq<File>, refs: seq<int>, q: seq<int>, room: int, need: int, k: nat, m: nat)
    requires Distinct(q, |files|) && |refs| == |files| && k <= m <= |q|
    requires forall i | 0 <= i < k :: refs[q[i]] == 0 && room + Sum(files, q[..i]) < need
    requires k < |q| ==> need <= room + Sum(files, q[..k]) || refs[q[k]] != 0
    requires (forall i | k <= i < m :: refs[q[i]] != 0) && (m < |q| ==> refs[q[m]] == 0)
    ensures Evicted(files, refs, q, room, need) ==
            if k == |q| then Outcome([], false)
            else if need <= room + Sum(files, q[..k]) then Outcome(q[k..], true)
            else if m < |q| then Outcome(q[k..m] + q[m + 1..], false)
            else Outcome(q[k..], false)
  {
    hide Sum, Front, Unpinned, Distinct;
    FrontIs(files, refs, q, room, need, k);
    PartsDistinct(q, |files|, k);
    UnpinnedIs(refs, q, k, m);
    if m < |q| { assert Without(q[k..], m - k) == q[k..m] + q[m + 1..]; }
  }

  lemma FrontIs(files: seq<File>, refs: seq<int>, q: seq<int>, room: int, need: int, k: nat)
    requires Distinct(q, |files|) && |refs| == |files| && k <= |q|
    requires forall i | 0 <= i < k :: refs[q[i]] == 0 && room + Sum(files, q[..i]) < need
    requires k < |q| ==> need <= room + Sum(files, q[..k]) || refs[q[k]] != 0
    ensures Front(files, refs, q, room, need) == k
  {
    hide Sum, Front, Unpinned, Distinct;
    FrontLeaves(files, refs, q, room, need);
  }

  lemma UnpinnedIs(refs: seq<int>, q: seq<int>, k: nat, m: nat)
    requires Distinct(q, |refs|) && k <= m <= |q|
    requires (forall i | k <= i < m :: refs[q[i]] != 0) && (m < |q| ==> refs[q[m]] == 0)
    ensures Distinct(q[k..], |refs|) && Unpinned(refs, q[k..]) == m - k
  {
    hide Unpinned;
    PartsDistinct(q, |refs|, k);
    var rest := q[k..];
    assert forall i | 0 <= i < |rest| :: rest[i] == q[k + i];
  }

  /** Only unpinned entries leave, and the others stay in their order. */
  lemma OnlyUnpinnedLeave(files: seq<File>, refs: seq<int>, q: seq<int>, room: int, need: int)
    requires Distinct(q, |files|) && |refs| == |files|
    ensures var left := Evicted(files, refs, q, room, need).left;
            && Distinct(left, |files|)
            && (forall t | t in left :: t in q)
            && (forall t | t in q && t !in left :: refs[t] == 0)
  {
    var k := Front(files, refs, q, room, need);
    FrontLeaves(files, refs, q, room, need);
    var rest := q[k..];
    var m := Unpinned(refs, rest);
    if m < |rest| {
      WithoutDistinct(rest, |files|, m);
    }
    forall i: nat | k <= i < |q| ensures q[i] in rest {
      assert q[i] == rest[i - k];
    }
  }

  /** Two unpinned entries that together give just room enough are both evicted, and failure is reported (line 312). */
  lemma EnoughIsNotReported(a: File, b: File, room: nat)
    requires a.size > 0 && b.size > 0
    ensures var files, refs, q, need := [a, b], [0, 0], [0, 1], room + a.size + b.size;
            Distinct(q, 2) && Evicted(files, refs, q, room, need) == Outcome([], false)
  {
    var files, refs, q := [a, b], [0, 0], [0, 1];
    assert q[1..] == [1] && [1][1..] == [];
    assert Front(files, refs, [1], room + a.size, room + a.size + b.size) == 1;
  }

  /** An unpinned entry behind a pinned one is evicted, and failure is reported although it gives room enough (lines 261, 306). */
  lemma BehindPinnedIsNotReported(a: File, b: File, c: File, room: nat)
    requires b.size > 0
    ensures var files, refs, q, need := [a, b, c], [1, 0, 0], [0, 1, 2], room + b.size;
            Distinct(q, 3) && Evicted(files, refs, q, room, need) == Outcome([0, 2], false)
  {
    var refs, q := [1, 0, 0], [0, 1, 2];
    assert q[0..] == q && q[..0] == [];
    assert Unpinned(refs, q[1..]) == 0;
    assert Without(q, 1) == [0, 2];
  }
}
