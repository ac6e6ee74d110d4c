/**
 A directory as a log of entries (fs/dir.c, fs/dir.h): how entries lie in the bytes of the directory, what the
 scans of the log find, and why the log is a map from names to inode numbers.
 */
module DirLogs {
  import opened Codec

  const DOT: seq<byte> := [46]
  const DOTDOT: seq<byte> := [46, 46]

  const HEADER := 8  // sizeof(struct dirent)

  /** An entry: an inode number, or -1 for a removed entry, and a name without its terminator. */
  datatype Dirent = Dirent(nr: int, name: seq<byte>)

  predicate IsName(s: seq<byte>)
  {
    |s| + 1 + HEADER < INT_LIMIT && forall c | c in s :: c != 0
  }

  predicate EntryOk(e: Dirent)
  {
    IsName(e.name) && -1 <= e.nr < INT_LIMIT
  }

  predicate EntriesOk(es: seq<Dirent>)
  {
    forall i | 0 <= i < |es| :: EntryOk(es[i])
  }

  // ---- bytes

  function Header(e: Dirent): (h: seq<byte>)
    requires EntryOk(e)
    ensures |h| == HEADER
  {
    PutInts(Zeros(HEADER), 0, [|e.name| + 1, Unsigned(e.nr)])
  }

  function Bytes(e: Dirent): (b: seq<byte>)
    requires EntryOk(e)
    ensures |b| == HEADER + |e.name| + 1
  {
    Header(e) + e.name + [0]
  }

  function Encode(es: seq<Dirent>): (b: seq<byte>)
    requires EntriesOk(es)
  {
    if es == [] then [] else Encode(es[..|es| - 1]) + Bytes(es[|es| - 1])
  }

  /** Where entry `i` begins. */
  function Pos(es: seq<Dirent>, i: nat): (p: nat)
    requires EntriesOk(es) && i <= |es|
    ensures p <= |Encode(es)|
  {
    PrefixFits(es, i);
    |Encode(es[..i])|
  }

  lemma PrefixFits(es: seq<Dirent>, i: nat)
    requires EntriesOk(es) && i <= |es|
    ensures |Encode(es[..i])| <= |Encode(es)|
  {
    EncodeConcat(es[..i], es[i..]);
    assert es == es[..i] + es[i..];
  }

  /** The header of an entry holds the length of its name, with the terminator, and its inode number. */
  lemma HeaderFields(e: Dirent)
    requires EntryOk(e)
    ensures Get(Header(e), 0, 4) == |e.name| + 1 && Signed(Get(Header(e), 4, 4)) == e.nr
  {
    var vs := [|e.name| + 1, Unsigned(e.nr)];
    GetPutInts(Zeros(HEADER), 0, vs);
    var g := GetInts(Header(e), 0, 2);
    assert g[0] == Get(Header(e), 0, 4) && g[1] == Get(Header(e), 4, 4);
  }

  lemma EncodeSnoc(es: seq<Dirent>, e: Dirent)
    requires EntriesOk(es) && EntryOk(e)
    ensures EntriesOk(es + [e]) && Encode(es + [e]) == Encode(es) + Bytes(e)
  {
    hide Bytes, EntryOk;
    assert (es + [e])[..|es|] == es;
  }

  lemma {:induction false} EncodeConcat(a: seq<Dirent>, b: seq<Dirent>)
    requires EntriesOk(a) && EntriesOk(b)
    ensures EntriesOk(a + b) && Encode(a + b) == Encode(a) + Encode(b)
    decreases |b|
  {
    hide Bytes, EntryOk;
    if b == [] {
      assert a + b == a;
    } else {
      var m := |b| - 1;
      EncodeConcat(a, b[..m]);
      assert a + b == (a + b[..m]) + [b[m]];
      EncodeSnoc(a + b[..m], b[m]);
    }
  }

  lemma EncodeOne(e: Dirent)
    requires EntryOk(e)
    ensures Encode([e]) == Bytes(e)
  {
    assert [e][..0] == [];
    assert Encode([e]) == Encode([]) + Bytes(e);
  }

  /** The log around entry `i`. */
  lemma Split(es: seq<Dirent>, i: nat)
    requires EntriesOk(es) && i < |es|
    ensures Encode(es) == Encode(es[..i]) + Bytes(es[i]) + Encode(es[i + 1..])
    ensures Pos(es, i + 1) == Pos(es, i) + |Bytes(es[i])| <= |Encode(es)|
    ensures Encode(es)[Pos(es, i)..Pos(es, i + 1)] == Bytes(es[i])
  {
    hide Bytes, EntryOk;
    assert es == es[..i + 1] + es[i + 1..];
    EncodeConcat(es[..i + 1], es[i + 1..]);
    assert es[..i + 1][..i] == es[..i];
    assert Encode(es[..i + 1]) == Encode(es[..i]) + Bytes(es[i]);
  }

  lemma PosEnd(es: seq<Dirent>)
    requires EntriesOk(es)
    ensures Pos(es, |es|) == |Encode(es)|
  {
    assert es[..|es|] == es;
  }

  lemma PosBefore(es: seq<Dirent>, i: nat)
    requires EntriesOk(es) && i <= |es|
    ensures Pos(es, i) <= |Encode(es)| && (Pos(es, i) == |Encode(es)| <==> i == |es|)
  {
    if i < |es| { Split(es, i); } else { PosEnd(es); }
  }

  /** An entry overwritten by one of the same length leaves the bytes of all others where they were. */
  lemma Overwritten(es: seq<Dirent>, i: nat, e: Dirent)
    requires EntriesOk(es) && i < |es| && EntryOk(e) && |e.name| == |es[i].name|
    ensures var fs := es[i := e];
            && EntriesOk(fs) && |Encode(fs)| == |Encode(es)| && Pos(es, i) + |Bytes(e)| <= |Encode(es)|
            && Encode(fs) == Encode(es)[..Pos(es, i)] + Bytes(e) + Encode(es)[Pos(es, i) + |Bytes(e)|..]
  {
    hide Encode, Bytes, EntryOk;
    var fs := es[i := e];
    BytesSize(e);
    BytesSize(es[i]);
    Split(es, i);
    Split(fs, i);
    assert fs[..i] == es[..i] && fs[i + 1..] == es[i + 1..];
    Spliced(Encode(es[..i]), Bytes(es[i]), Encode(es[i + 1..]), Bytes(e));
  }

  lemma BytesSize(e: Dirent)
    requires EntryOk(e)
    ensures |Bytes(e)| == HEADER + |e.name| + 1
  {
  }

  /** The middle of three parts replaced. */
  lemma Spliced(a: seq<byte>, b: seq<byte>, c: seq<byte>, d: seq<byte>)
    requires |d| == |b|
    ensures a + d + c == (a + b + c)[..|a|] + d + (a + b + c)[|a| + |d|..]
  {
    assert (a + b + c)[..|a|] == a && (a + b + c)[|a| + |b|..] == c;
  }

  lemma Appended(es: seq<Dirent>, e: Dirent)
    requires EntriesOk(es) && EntryOk(e)
    ensures EntriesOk(es + [e]) && Encode(es + [e]) == Encode(es) + Bytes(e)
  {
    EncodeConcat(es, [e]);
    EncodeOne(e);
  }

  lemma SameEntry(e: Dirent, f: Dirent, b: seq<byte>, c: seq<byte>)
    requires EntryOk(e) && EntryOk(f) && Bytes(e) + b == Bytes(f) + c
    ensures e == f && b == c
  {
    hide Header;
    HeaderFields(e);
    HeaderFields(f);
    assert Bytes(e) + b == Header(e) + (e.name + ([0] + b)) && Bytes(f) + c == Header(f) + (f.name + ([0] + c));
    SameFront(Header(e), e.name + ([0] + b), Header(f), f.name + ([0] + c));
    SameFront(e.name, [0] + b, f.name, [0] + c);
    SameFront([0], b, [0], c);
  }

  lemma SameFront(a: seq<byte>, b: seq<byte>, c: seq<byte>, d: seq<byte>)
    requires a + b == c + d && |a| == |c|
    ensures a == c && b == d
  {
    assert a == (a + b)[..|a|] && c == (c + d)[..|c|];
    assert b == (a + b)[|a|..] && d == (c + d)[|c|..];
  }

  lemma FirstOf(es: seq<Dirent>)
    requires EntriesOk(es) && es != []
    ensures Encode(es) == Bytes(es[0]) + Encode(es[1..])
  {
    hide Bytes, EntryOk;
    Split(es, 0);
    assert Encode(es[..0]) == [];
  }

  /** The bytes of a directory determine its entries. */
  lemma {:induction false} EncodeInjective(es: seq<Dirent>, fs: seq<Dirent>)
    requires EntriesOk(es) && EntriesOk(fs) && Encode(es) == Encode(fs)
    ensures es == fs
    decreases |es|
  {
    hide Bytes, EntryOk, Encode;
    if es != [] && fs != [] {
      FirstOf(es);
      FirstOf(fs);
      SameEntry(es[0], fs[0], Encode(es[1..]), Encode(fs[1..]));
      EncodeInjective(es[1..], fs[1..]);
      assert es == [es[0]] + es[1..] && fs == [fs[0]] + fs[1..];
    } else {
      PosBefore(es, 0);
      PosBefore(fs, 0);
    }
  }

  /** A log does not end in as many zeros as a header and a terminator have bytes. */
  lemma EndIsNotZero(es: seq<Dirent>)
    requires EntriesOk(es) && Encode(es) != []
    ensures |Encode(es)| >= HEADER + 1
    ensures exists k :: |Encode(es)| - HEADER - 1 <= k < |Encode(es)| && Encode(es)[k] != 0
  {
    var e := es[|es| - 1];
    var b := Encode(es);
    var n := |b| - |Bytes(e)|;
    assert b[n..] == Bytes(e);
    if e.name == [] {
      HeaderFields(e);
      NonzeroLength(Header(e));
      assert forall k | 0 <= k < 4 :: b[n + k] == Header(e)[k];
    } else {
      assert b[|b| - 2] == e.name[|e.name| - 1] && e.name[|e.name| - 1] in e.name;
    }
  }

  lemma NonzeroLength(h: seq<byte>)
    requires |h| == HEADER
    ensures Get(h, 0, 4) != 0 ==> h[0] != 0 || h[1] != 0 || h[2] != 0 || h[3] != 0
  {
    if h[0] == 0 && h[1] == 0 && h[2] == 0 && h[3] == 0 {
      GetDependsOnBytes(h, ZERO_BLOCK, 0, 4);
      GetZeros(0, 4);
    }
  }

  // ---- scans

  /** The entry is in use and has this name. */
  predicate Live(e: Dirent, name: seq<byte>)
  {
    e.nr >= 0 && e.name == name
  }

  /** The entry can be reused for a name of this length. */
  predicate Reusable(e: Dirent, n: nat)
  {
    e.nr < 0 && |e.name| == n
  }

  /** The first live entry of a name; the number of entries if there is none. */
  function Index(es: seq<Dirent>, name: seq<byte>): (i: nat)
    ensures i <= |es| && (i < |es| ==> Live(es[i], name))
    ensures forall j | 0 <= j < i :: !Live(es[j], name)
  {
    if es == [] then 0
    else if Live(es[0], name) then 0
    else
      var i := Index(es[1..], name);
      assert forall j | 0 < j <= i :: es[j] == es[1..][j - 1];
      1 + i
  }

  /** The first entry that can be reused for a name of this length; the number of entries if there is none. */
  function Slot(es: seq<Dirent>, n: nat): (i: nat)
    ensures i <= |es| && (i < |es| ==> Reusable(es[i], n))
    ensures forall j | 0 <= j < i :: !Reusable(es[j], n)
  {
    if es == [] then 0
    else if Reusable(es[0], n) then 0
    else
      var i := Slot(es[1..], n);
      assert forall j | 0 < j <= i :: es[j] == es[1..][j - 1];
      1 + i
  }

  /** The first entry with this inode number; the number of entries if there is none. */
  function FirstNr(es: seq<Dirent>, nr: int): (i: nat)
    ensures i <= |es| && (i < |es| ==> es[i].nr == nr)
    ensures forall j | 0 <= j < i :: es[j].nr != nr
  {
    if es == [] then 0
    else if es[0].nr == nr then 0
    else
      var i := FirstNr(es[1..], nr);
      assert forall j | 0 < j <= i :: es[j] == es[1..][j - 1];
      1 + i
  }

  lemma FirstNrIs(es: seq<Dirent>, nr: int, i: nat)
    requires i <= |es| && (i < |es| ==> es[i].nr == nr) && forall j | 0 <= j < i :: es[j].nr != nr
    ensures FirstNr(es, nr) == i
  {
  }

  lemma FirstIs(es: seq<Dirent>, name: seq<byte>, i: nat)
    requires i <= |es| && (i < |es| ==> Live(es[i], name)) && forall j | 0 <= j < i :: !Live(es[j], name)
    ensures Index(es, name) == i
  {
  }

  lemma SlotIs(es: seq<Dirent>, n: nat, i: nat)
    requires i <= |es| && (i < |es| ==> Reusable(es[i], n)) && forall j | 0 <= j < i :: !Reusable(es[j], n)
    ensures Slot(es, n) == i
  {
  }

  /** The log after a name is added where the scan of testfs_add_dirent stops. */
  function Added(es: seq<Dirent>, name: seq<byte>, nr: int): seq<Dirent>
  {
    var s := Slot(es, |name|);
    if s < |es| then es[s := Dirent(nr, name)] else es + [Dirent(nr, name)]
  }

  /** testfs_add_dirent finds the name, unless it finds an entry to reuse before it. */
  predicate Refused(es: seq<Dirent>, name: seq<byte>)
  {
    Index(es, name) < Slot(es, |name|)
  }

  /** The log after entry `i` is removed. */
  function Removed(es: seq<Dirent>, i: nat): seq<Dirent>
    requires i < |es|
  {
    es[i := es[i].(nr := -1)]
  }

  // ---- the map

  /** No two live entries have one name. */
  predicate Unique(es: seq<Dirent>)
  {
    forall i, j | 0 <= i < j < |es| && es[i].nr >= 0 && es[j].nr >= 0 :: es[i].name != es[j].name
  }

  predicate Bound(es: seq<Dirent>, name: seq<byte>)
  {
    Index(es, name) < |es|
  }

  function LiveNames(es: seq<Dirent>): set<seq<byte>>
  {
    set i | 0 <= i < |es| && es[i].nr >= 0 :: es[i].name
  }

  lemma BoundIff(es: seq<Dirent>, name: seq<byte>)
    ensures name in LiveNames(es) <==> Bound(es, name)
    ensures Bound(es, name) <==> exists i :: 0 <= i < |es| && Live(es[i], name)
  {
  }

  /** The directory as a map from names to inode numbers. */
  function Dict(es: seq<Dirent>): map<seq<byte>, int>
  {
    map n | n in LiveNames(es) :: BoundIff(es, n); es[Index(es, n)].nr
  }

  /** What a name is bound to; negative if it is not bound. */
  function Lookup(es: seq<Dirent>, name: seq<byte>): int
  {
    var i := Index(es, name);
    if i < |es| then es[i].nr else -1
  }

  lemma LookupIsDict(es: seq<Dirent>, name: seq<byte>)
    ensures Lookup(es, name) >= 0 <==> name in Dict(es)
    ensures Lookup(es, name) >= 0 <==> Bound(es, name)
    ensures name in Dict(es) ==> Dict(es)[name] == Lookup(es, name)
  {
    BoundIff(es, name);
  }

  /** A name that occurs once is looked up where it is. */
  lemma NamesAt(es: seq<Dirent>, i: nat)
    requires Unique(es) && i < |es| && es[i].nr >= 0
    ensures es[i].name in Dict(es) && Dict(es)[es[i].name] == es[i].nr && Index(es, es[i].name) == i
  {
    hide Index;
    BoundIff(es, es[i].name);
    var k := Index(es, es[i].name);
    assert k <= i;
  }

  lemma NamesFrom(es: seq<Dirent>, name: seq<byte>)
    requires name in Dict(es)
    ensures exists i :: 0 <= i < |es| && Live(es[i], name) && Dict(es)[name] == es[i].nr
  {
    BoundIff(es, name);
    assert Live(es[Index(es, name)], name);
  }

  /** The map is what the live entries say. */
  lemma NamesAre(es: seq<Dirent>, m: map<seq<byte>, int>)
    requires Unique(es)
    requires forall i | 0 <= i < |es| && es[i].nr >= 0 :: es[i].name in m && m[es[i].name] == es[i].nr
    requires forall n | n in m :: exists i :: 0 <= i < |es| && Live(es[i], n)
    ensures Dict(es) == m
  {
    forall n | n in Dict(es) ensures n in m && m[n] == Dict(es)[n] {
      NamesFrom(es, n);
    }
    forall n | n in m ensures n in Dict(es) {
      BoundIff(es, n);
    }
  }

  /** What adding or removing an entry does to the map: entry `i` replaced by `e`. */
  lemma NamesReplaced(es: seq<Dirent>, i: nat, e: Dirent)
    requires Unique(es) && i < |es|
    requires if e.nr >= 0 then es[i].nr < 0 && !Bound(es, e.name) else es[i].nr >= 0
    ensures Unique(es[i := e])
    ensures Dict(es[i := e]) == if e.nr >= 0 then Dict(es)[e.name := e.nr] else Dict(es) - {es[i].name}
  {
    hide Dict, Bound;
    var fs := es[i := e];
    BoundIff(es, e.name);
    var m := if e.nr >= 0 then Dict(es)[e.name := e.nr] else Dict(es) - {es[i].name};
    forall k | 0 <= k < |fs| && fs[k].nr >= 0 ensures fs[k].name in m && m[fs[k].name] == fs[k].nr {
      if k != i { NamesAt(es, k); }
    }
    forall n | n in m ensures exists k :: 0 <= k < |fs| && Live(fs[k], n) {
      if e.nr >= 0 && n == e.name {
        assert Live(fs[i], n);
      } else {
        NamesFrom(es, n);
        var k :| 0 <= k < |es| && Live(es[k], n);
        assert Live(fs[k], n);
      }
    }
    NamesAre(fs, m);
  }

  lemma NamesAppended(es: seq<Dirent>, e: Dirent)
    requires Unique(es) && e.nr >= 0 && !Bound(es, e.name)
    ensures Unique(es + [e]) && Dict(es + [e]) == Dict(es)[e.name := e.nr]
  {
    hide Dict, Bound;
    var fs := es + [e];
    BoundIff(es, e.name);
    var m := Dict(es)[e.name := e.nr];
    forall k | 0 <= k < |fs| && fs[k].nr >= 0 ensures fs[k].name in m && m[fs[k].name] == fs[k].nr {
      if k < |es| { NamesAt(es, k); }
    }
    forall n | n in m ensures exists k :: 0 <= k < |fs| && Live(fs[k], n) {
      if n == e.name {
        assert Live(fs[|es|], n);
      } else {
        NamesFrom(es, n);
        var k :| 0 <= k < |es| && Live(es[k], n);
        assert Live(fs[k], n);
      }
    }
    NamesAre(fs, m);
  }

  /** Adding a name that is not there binds it and nothing else, in a reused entry or at the end. */
  lemma AddBinds(es: seq<Dirent>, name: seq<byte>, nr: nat)
    requires Unique(es) && name !in Dict(es)
    ensures !Refused(es, name) && Unique(Added(es, name, nr))
    ensures Dict(Added(es, name, nr)) == Dict(es)[name := nr]
  {
    BoundIff(es, name);
    var s := Slot(es, |name|);
    if s < |es| { NamesReplaced(es, s, Dirent(nr, name)); } else { NamesAppended(es, Dirent(nr, name)); }
  }

  /** Names stay unique exactly when the name was not there: the scan alone does not see to it. */
  lemma AddKeepsUniqueIff(es: seq<Dirent>, name: seq<byte>, nr: nat)
    requires Unique(es) && !Refused(es, name)
    ensures Unique(Added(es, name, nr)) <==> name !in Dict(es)
  {
    BoundIff(es, name);
    if name in Dict(es) {
      var i, s := Index(es, name), Slot(es, |name|);
      var fs := Added(es, name, nr);
      assert s < i && fs[s].name == fs[i].name == name;
    } else {
      AddBinds(es, name, nr);
    }
  }

  /** A removed entry of the same length before the name hides it from the scan. */
  lemma DuplicateHappens(x: byte, y: byte, nr: nat)
    requires x != 0 && y != 0
    ensures var es := [Dirent(-1, [x]), Dirent(7, [y])];
            Unique(es) && !Refused(es, [y]) && !Unique(Added(es, [y], nr))
  {
    var es := [Dirent(-1, [x]), Dirent(7, [y])];
    FirstIs(es, [y], 1);
    SlotIs(es, 1, 0);
    BoundIff(es, [y]);
    AddKeepsUniqueIff(es, [y], nr);
  }

  /** Removing a live entry unbinds its name and nothing else. */
  lemma RemoveUnbinds(es: seq<Dirent>, i: nat)
    requires Unique(es) && i < |es| && es[i].nr >= 0
    ensures Unique(Removed(es, i)) && Dict(Removed(es, i)) == Dict(es) - {es[i].name}
  {
    NamesReplaced(es, i, es[i].(nr := -1));
  }

  /** A removed entry makes room for a name of its length: the log does not grow. */
  lemma ReuseKeepsLength(es: seq<Dirent>, i: nat, name: seq<byte>, nr: nat)
    requires EntriesOk(es) && i < |es| && IsName(name) && |name| == |es[i].name| && nr < INT_LIMIT
    ensures var fs := Added(Removed(es, i), name, nr);
            |fs| == |es| && EntriesOk(fs) && |Encode(fs)| == |Encode(es)|
  {
    var rs := Removed(es, i);
    Overwritten(es, i, rs[i]);
    var s := Slot(rs, |name|);
    assert Reusable(rs[i], |name|);
    Overwritten(rs, s, Dirent(nr, name));
  }

  lemma LookupAdded(es: seq<Dirent>, name: seq<byte>, nr: nat)
    requires Unique(es) && Lookup(es, name) < 0
    ensures Unique(Added(es, name, nr))
    ensures forall n :: Lookup(Added(es, name, nr), n) == if n == name then nr else Lookup(es, n)
  {
    LookupIsDict(es, name);
    AddBinds(es, name, nr);
    forall n ensures Lookup(Added(es, name, nr), n) == if n == name then nr else Lookup(es, n) {
      LookupIsDict(es, n);
      LookupIsDict(Added(es, name, nr), n);
    }
  }

  lemma LookupRemoved(es: seq<Dirent>, i: nat)
    requires Unique(es) && i < |es| && es[i].nr >= 0
    ensures Unique(Removed(es, i))
    ensures forall n :: Lookup(Removed(es, i), n) == if n == es[i].name then -1 else Lookup(es, n)
  {
    RemoveUnbinds(es, i);
    forall n ensures Lookup(Removed(es, i), n) == if n == es[i].name then -1 else Lookup(es, n) {
      LookupIsDict(es, n);
      LookupIsDict(Removed(es, i), n);
    }
  }

  lemma LookupAt(es: seq<Dirent>, i: nat)
    requires Unique(es) && i < |es| && es[i].nr >= 0
    ensures Lookup(es, es[i].name) == es[i].nr
  {
    NamesAt(es, i);
  }

  lemma LookupFrom(es: seq<Dirent>, name: seq<byte>)
    requires Lookup(es, name) >= 0
    ensures exists i :: 0 <= i < |es| && Live(es[i], name) && es[i].nr == Lookup(es, name)
  {
    assert Live(es[Index(es, name)], name);
  }

  /** No entry is in use but those for the directory itself and its parent. */
  predicate Bare(es: seq<Dirent>)
  {
    forall i | 0 <= i < |es| && es[i].nr >= 0 :: es[i].name == DOT || es[i].name == DOTDOT
  }
}
