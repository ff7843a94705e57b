/** The raw mirror's byte cap: oldest files first, until the rest fits. */
module Eviction {
  import opened Common
  import opened Spool

  datatype File = File(bytes: seq<byte>, mtimeMs: int)

  type Tree = map<string, File>

  /** One listed file as the eviction pass sees it. */
  datatype Entry = Entry(file: string, bytes: nat, mtimeMs: int)

  // ----- sizes -----

  /** The bytes of all files in the tree. */
  ghost function TotalBytes(t: Tree): nat
    decreases |t|
  {
    if t == map[] then 0
    else
      var p :| p in t;
      |t[p].bytes| + TotalBytes(t - {p})
  }

  lemma TotalWithout(t: Tree, p: string)
    requires p in t
    ensures TotalBytes(t) == |t[p].bytes| + TotalBytes(t - {p})
    decreases |t|
  {
    var q :| q in t && TotalBytes(t) == |t[q].bytes| + TotalBytes(t - {q});
    if q != p {
      TotalWithout(t - {q}, p);
      TotalWithout(t - {p}, q);
      assert t - {q} - {p} == t - {p} - {q};
    }
  }

  function SumBytes(entries: seq<Entry>): nat {
    if entries == [] then 0 else entries[0].bytes + SumBytes(entries[1..])
  }

  function Files(entries: seq<Entry>): set<string> {
    set e | e in entries :: e.file
  }

  ghost predicate Unique(entries: seq<Entry>) {
    entries != [] ==> entries[0].file !in Files(entries[1..]) && Unique(entries[1..])
  }

  ghost predicate Describes(e: Entry, t: Tree) {
    e.file in t && e.bytes == |t[e.file].bytes| && e.mtimeMs == t[e.file].mtimeMs
  }

  /** The listing holds each non-empty file of the tree once, with its size and time. */
  ghost predicate Lists(entries: seq<Entry>, t: Tree) {
    && Unique(entries)
    && (forall e :: e in entries ==> Describes(e, t) && e.bytes > 0)
    && (forall p :: p in t && t[p].bytes != [] ==> p in Files(entries))
  }

  lemma {:induction false} SumIsTotal(entries: seq<Entry>, t: Tree)
    requires Lists(entries, t)
    ensures SumBytes(entries) == TotalBytes(t)
    decreases |entries|
  {
    if entries == [] {
      AllEmpty(t);
    } else {
      var e := entries[0];
      assert entries == [e] + entries[1..];
      assert Files(entries) == {e.file} + Files(entries[1..]);
      assert e in entries && forall x :: x in entries[1..] ==> x in entries && x.file in Files(entries[1..]);
      SumIsTotal(entries[1..], t - {e.file});
      TotalWithout(t, e.file);
    }
  }

  lemma AllEmpty(t: Tree)
    requires forall p :: p in t ==> t[p].bytes == []
    ensures TotalBytes(t) == 0
    decreases |t|
  {
    if t != map[] {
      var q :| q in t && TotalBytes(t) == |t[q].bytes| + TotalBytes(t - {q});
      AllEmpty(t - {q});
    }
  }

  // ----- oldest first -----

  const BY_TIME: Order<Entry> := (a: Entry, b: Entry) => a.mtimeMs <= b.mtimeMs

  /** The stable ascending sort by time. */
  function SortByTime(entries: seq<Entry>): seq<Entry> {
    Sort(entries, BY_TIME)
  }

  ghost predicate OldestFirst(entries: seq<Entry>) {
    entries != [] ==> (forall e :: e in entries[1..] ==> entries[0].mtimeMs <= e.mtimeMs) && OldestFirst(entries[1..])
  }

  lemma {:induction false} InsertKeepsListing(e: Entry, sorted: seq<Entry>)
    ensures forall x :: x in Insert(e, sorted, BY_TIME) <==> x == e || x in sorted
    ensures Unique(sorted) && e.file !in Files(sorted) ==> Unique(Insert(e, sorted, BY_TIME))
    ensures OldestFirst(sorted) ==> OldestFirst(Insert(e, sorted, BY_TIME))
    ensures SumBytes(Insert(e, sorted, BY_TIME)) == SumBytes(sorted) + e.bytes
  {
    if sorted != [] {
      assert sorted == [sorted[0]] + sorted[1..];
      if e.mtimeMs >= sorted[0].mtimeMs {
        InsertKeepsListing(e, sorted[1..]);
        assert Insert(e, sorted, BY_TIME)[1..] == Insert(e, sorted[1..], BY_TIME);
      } else {
        assert Insert(e, sorted, BY_TIME)[1..] == sorted;
      }
    }
  }

  lemma {:induction false} UniqueInit(entries: seq<Entry>)
    requires entries != [] && Unique(entries)
    ensures var n := |entries| - 1; Unique(entries[..n]) && entries[n].file !in Files(entries[..n])
  {
    var n := |entries| - 1;
    if n > 0 {
      UniqueInit(entries[1..]);
      assert entries[..n][1..] == entries[1..][..n - 1];
      assert entries[n] in entries[1..];
      assert entries[..n] == [entries[0]] + entries[1..][..n - 1];
    }
  }

  /** Sorting keeps the entries, their distinctness and their sum, and puts the oldest first. */
  lemma {:induction false} SortKeepsListing(entries: seq<Entry>)
    requires Unique(entries)
    ensures var sorted := SortByTime(entries);
            && (forall x :: x in sorted <==> x in entries)
            && Unique(sorted) && OldestFirst(sorted)
            && SumBytes(sorted) == SumBytes(entries)
  {
    if entries != [] {
      var n := |entries| - 1;
      UniqueInit(entries);
      SortKeepsListing(entries[..n]);
      InsertKeepsListing(entries[n], SortByTime(entries[..n]));
      assert entries == entries[..n] + [entries[n]];
      SumOfLast(entries[..n], entries[n]);
    }
  }

  lemma {:induction false} SumOfLast(entries: seq<Entry>, e: Entry)
    ensures SumBytes(entries + [e]) == SumBytes(entries) + e.bytes
  {
    if entries != [] {
      assert (entries + [e])[1..] == entries[1..] + [e];
      SumOfLast(entries[1..], e);
    }
  }

  lemma SortedLists(entries: seq<Entry>, t: Tree)
    requires Lists(entries, t)
    ensures Lists(SortByTime(entries), t)
  {
    SortKeepsListing(entries);
  }

  // ----- the pass -----

  /** What the pass deletes; files in `stuck` fail to unlink and are passed over. */
  function Evicted(entries: seq<Entry>, total: int, cap: nat, stuck: set<string>): seq<Entry> {
    if entries == [] || total <= cap then []
    else if entries[0].file in stuck then Evicted(entries[1..], total, cap, stuck)
    else [entries[0]] + Evicted(entries[1..], total - entries[0].bytes, cap, stuck)
  }

  /** What survives the pass. */
  function Survivors(t: Tree, listing: seq<Entry>, cap: nat, stuck: set<string>): Tree {
    t - Files(Evicted(SortByTime(listing), SumBytes(listing), cap, stuck))
  }

  lemma {:induction false} EvictedAreListed(entries: seq<Entry>, total: int, cap: nat, stuck: set<string>)
    ensures forall e :: e in Evicted(entries, total, cap, stuck) ==> e in entries && e.file !in stuck
  {
    if entries != [] && total > cap {
      EvictedAreListed(entries[1..], total, cap, stuck);
      EvictedAreListed(entries[1..], total - entries[0].bytes, cap, stuck);
    }
  }

  lemma {:induction false} EvictedUnique(entries: seq<Entry>, total: int, cap: nat, stuck: set<string>)
    requires Unique(entries)
    ensures Unique(Evicted(entries, total, cap, stuck))
  {
    if entries != [] && total > cap {
      EvictedUnique(entries[1..], total, cap, stuck);
      EvictedUnique(entries[1..], total - entries[0].bytes, cap, stuck);
      EvictedAreListed(entries[1..], total - entries[0].bytes, cap, stuck);
    }
  }

  lemma {:induction false} RemovingEntries(t: Tree, gone: seq<Entry>)
    requires Unique(gone) && forall e :: e in gone ==> Describes(e, t)
    ensures TotalBytes(t - Files(gone)) == TotalBytes(t) - SumBytes(gone)
    decreases |gone|
  {
    if gone == [] {
      assert t - Files(gone) == t;
    } else {
      var e := gone[0];
      assert gone == [e] + gone[1..];
      assert e in gone && Describes(e, t);
      assert forall x :: x in gone[1..] ==> x in gone && x.file in Files(gone[1..]);
      TotalWithout(t, e.file);
      RemovingEntries(t - {e.file}, gone[1..]);
      assert t - Files(gone) == t - {e.file} - Files(gone[1..]);
    }
  }

  /** The running total at the end: at or under the cap, unless every listed file was tried and
      the ones left failed to unlink. */
  lemma {:induction false} StopsUnderCap(entries: seq<Entry>, total: int, cap: nat, stuck: set<string>)
    requires total >= SumBytes(entries)
    ensures var gone := Evicted(entries, total, cap, stuck);
            || total - SumBytes(gone) <= cap
            || forall e :: e in entries && e.file !in stuck ==> e in gone
  {
    if entries != [] && total > cap {
      if entries[0].file in stuck {
        StopsUnderCap(entries[1..], total, cap, stuck);
      } else {
        StopsUnderCap(entries[1..], total - entries[0].bytes, cap, stuck);
      }
    }
  }

  /** With no failure the pass deletes the shortest oldest-first prefix that brings the total to
      the cap: any shorter prefix would leave too much. */
  lemma {:induction false} ShortestPrefix(entries: seq<Entry>, total: int, cap: nat)
    requires total == SumBytes(entries)
    ensures var gone := Evicted(entries, total, cap, {});
            && |gone| <= |entries| && gone == entries[..|gone|]
            && total - SumBytes(gone) <= cap
            && forall k :: 0 <= k < |gone| ==> total - SumBytes(entries[..k]) > cap
  {
    if entries != [] && total > cap {
      var rest := Evicted(entries[1..], total - entries[0].bytes, cap, {});
      var gone := Evicted(entries, total, cap, {});
      ShortestPrefix(entries[1..], total - entries[0].bytes, cap);
      assert gone == entries[..|gone|];
      forall k | 0 <= k < |gone| ensures total - SumBytes(entries[..k]) > cap {
        if k > 0 {
          assert entries[..k][1..] == entries[1..][..k - 1];
        }
      }
    }
  }

  /** The entries that can be unlinked, in order. */
  function Loose(entries: seq<Entry>, stuck: set<string>): seq<Entry> {
    if entries == [] then []
    else (if entries[0].file in stuck then [] else [entries[0]]) + Loose(entries[1..], stuck)
  }

  lemma {:induction false} LooseAre(entries: seq<Entry>, stuck: set<string>)
    ensures forall e :: e in Loose(entries, stuck) <==> e in entries && e.file !in stuck
    ensures Unique(entries) ==> Unique(Loose(entries, stuck))
  {
    if entries != [] {
      LooseAre(entries[1..], stuck);
      if entries[0].file !in stuck {
        assert Loose(entries, stuck)[1..] == Loose(entries[1..], stuck);
      } else {
        assert Loose(entries, stuck) == Loose(entries[1..], stuck);
      }
    }
  }

  /** Whatever fails to unlink, the pass deletes the shortest prefix of the rest that brings the total
      to the cap, or all of it. */
  lemma {:induction false} EvictedExactly(entries: seq<Entry>, total: int, cap: nat, stuck: set<string>)
    ensures var gone, loose := Evicted(entries, total, cap, stuck), Loose(entries, stuck);
            && |gone| <= |loose| && gone == loose[..|gone|]
            && (gone == loose || total - SumBytes(gone) <= cap)
            && forall k :: 0 <= k < |gone| ==> total - SumBytes(loose[..k]) > cap
  {
    if entries != [] && total > cap {
      if entries[0].file in stuck {
        EvictedExactly(entries[1..], total, cap, stuck);
        assert Loose(entries, stuck) == Loose(entries[1..], stuck);
      } else {
        var left := total - entries[0].bytes;
        var gone, loose := Evicted(entries[1..], left, cap, stuck), Loose(entries[1..], stuck);
        EvictedExactly(entries[1..], left, cap, stuck);
        assert Evicted(entries, total, cap, stuck) == ([entries[0]] + loose)[..1 + |gone|];
        forall k | 0 <= k < 1 + |gone| ensures total - SumBytes(([entries[0]] + loose)[..k]) > cap {
          if k > 0 {
            assert ([entries[0]] + loose)[..k][1..] == loose[..k - 1];
          }
        }
      }
    }
  }
}
