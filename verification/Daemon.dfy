/**
 * The copy-out daemon: it mirrors append-only transcripts into a raw tree and keeps that tree
 * under a byte cap. The transcripts grow, and are deleted, under it.
 */
module Daemon {
  import opened Common
  import opened Spool
  import opened Eviction

  /** What can go wrong or change between the `stat` of a source and the end of the mirror step:
      the source may grow before it is copied, the copy may fail, the walk that sizes the mirror may
      fail to see files (`unseen`), and some unlinks may fail (`stuck`). The copy is stamped
      `copyMs`. */
  datatype Circumstances = Circumstances(growth: seq<byte>, growthMs: int, copyFails: bool, copyMs: int,
                                         unseen: set<string>, stuck: set<string>)

  /** The transcripts, and the mirror. `held` is the longest content each transcript has had. */
  datatype World = World(source: Tree, held: map<string, seq<byte>>, mirror: Tree)

  predicate AlreadyMirrored(prior: Option<File>, src: File) {
    prior.Some? && |prior.value.bytes| >= |src.bytes| && prior.value.mtimeMs >= src.mtimeMs
  }

  function Lookup(t: Tree, p: string): Option<File> {
    if p in t then Some(t[p]) else None
  }

  function Grown(w: World, p: string, more: seq<byte>, ms: int): World {
    var bytes := (if p in w.source then w.source[p].bytes else []) + more;
    w.(source := w.source[p := File(bytes, ms)], held := w.held[p := bytes])
  }

  class CaptureDaemon {
    const maxRawBytes: nat
    const included: string -> bool
    var mirror: Tree

    constructor (maxRawBytes: nat, included: string -> bool, mirror: Tree)
      ensures this.maxRawBytes == maxRawBytes && this.included == included && this.mirror == mirror
    {
      this.maxRawBytes, this.included, this.mirror := maxRawBytes, included, mirror;
    }

    /** The eviction loop over the files, oldest first. */
    method EvictFrom(files: seq<Entry>, start: int, stuck: set<string>) returns (total: int)
      modifies this`mirror
      ensures var gone := Evicted(files, start, maxRawBytes, stuck);
              mirror == old(mirror) - Files(gone) && total == start - SumBytes(gone)
    {
      total := start;
      ghost var gone: seq<Entry> := [];
      var i := 0;
      while i < |files|
        invariant 0 <= i <= |files|
        invariant Evicted(files, start, maxRawBytes, stuck) == gone + Evicted(files[i..], total, maxRawBytes, stuck)
        invariant mirror == old(mirror) - Files(gone)
        invariant total == start - SumBytes(gone)
      {
        if total <= maxRawBytes {
          break;
        }
        var f := files[i];
        EvictStep(files, i, gone, total, maxRawBytes, stuck);
        if f.file !in stuck {
          mirror := mirror - {f.file};
          total := total - f.bytes;
          gone := gone + [f];
        }
        i := i + 1;
      }
      assert Evicted(files, start, maxRawBytes, stuck) == gone + [] == gone;
    }

    /** The eviction pass over a listing of what the walk saw of the mirror. */
    method EvictIfNeeded(listing: seq<Entry>, unseen: set<string>, stuck: set<string>) returns (total: int)
      requires Lists(listing, mirror - unseen)
      modifies this`mirror
      ensures mirror == Survivors(old(mirror), listing, maxRawBytes, stuck)
      ensures total == TotalBytes(mirror - unseen)
    {
      RunningTotal(mirror - unseen, listing, maxRawBytes, stuck);
      UnseenStay(mirror, unseen, listing, maxRawBytes, stuck);
      total := SumBytes(listing);
      if total <= maxRawBytes {
        return total;
      }
      total := EvictFrom(SortByTime(listing), total, stuck);
    }

    /** The walk over the raw tree: the non-empty files it can see, in any order. */
    method ListMirror(unseen: set<string>) returns (listing: seq<Entry>)
      ensures Lists(listing, mirror - unseen)
    {
      listing := [];
      var todo := mirror.Keys - unseen;
      while todo != {}
        invariant todo <= mirror.Keys - unseen
        invariant Lists(listing, mirror - unseen - todo)
        decreases todo
      {
        var p :| p in todo;
        if mirror[p].bytes != [] {
          var e := Entry(p, |mirror[p].bytes|, mirror[p].mtimeMs);
          assert listing == ([e] + listing)[1..];
          assert Files([e] + listing) == {p} + Files(listing);
          listing := [e] + listing;
        }
        todo := todo - {p};
      }
      assert mirror - unseen - {} == mirror - unseen;
    }

    /** Copy one transcript: None when it is excluded, gone, already mirrored or not copied. */
    method MirrorFile(source: Tree, file: string, c: Circumstances) returns (bytes: Option<nat>, ghost listing: seq<Entry>)
      modifies this`mirror
      ensures mirror == MirroredTree(old(mirror), source, file, included(file), c, listing, maxRawBytes)
      ensures bytes.Some? <==> Copies(old(mirror), source, file, included(file), c)
      ensures bytes.Some? ==>
                && bytes.value == |source[file].bytes|
                && Lists(listing, old(mirror)[file := Copied(source, file, c)] - c.unseen)
                && CopiedOver(old(mirror), mirror, file, File(source[file].bytes + c.growth, c.copyMs), c, maxRawBytes)
      ensures bytes.None? ==> mirror == old(mirror)
    {
      bytes, listing := None, [];
      if !included(file) {
        return;
      }
      if file !in source {
        return;
      }
      var src := source[file];
      if AlreadyMirrored(Lookup(mirror, file), src) {
        return;
      }
      if c.copyFails {
        return;
      }
      mirror := mirror[file := Copied(source, file, c)];
      var found := ListMirror(c.unseen);
      listing := found;
      CopyIsMirrored(old(mirror), source, file, c, listing, maxRawBytes);
      var _ := EvictIfNeeded(found, c.unseen, c.stuck);
      bytes := Some(|src.bytes|);
    }

    /** A full sweep. `trees[i]` are the transcripts as they are when the sweep comes to `files[i]`,
        and `cs[i]` what happens then: sources grow and vanish meanwhile, copies fail, copies are
        evicted. `trail` is the mirror before each file and at the end. Each transcript that is there,
        included and not failing is left with a copy that holds all it held at its turn, unless an
        eviction over the cap took that copy since; no other copy changes. */
    method RescanNow(files: seq<string>, trees: seq<Tree>, cs: seq<Circumstances>) returns (ghost trail: seq<Tree>)
      requires |trees| == |cs| == |files| && Distinct(files)
      requires forall i :: 0 <= i < |files| && files[i] in trees[i] && files[i] in mirror ==>
                 mirror[files[i]].bytes <= trees[i][files[i]].bytes
      modifies this`mirror
      ensures |trail| == |files| + 1 && trail[0] == old(mirror) && trail[|files|] == mirror
      ensures forall i :: 0 <= i < |files| ==>
                Turn(trail[i], trail[i + 1], trees[i], files[i], included(files[i]), cs[i], maxRawBytes)
      ensures forall i :: 0 <= i < |files| && included(files[i]) && files[i] in trees[i] && !cs[i].copyFails ==>
                files[i] in mirror || exists j :: i <= j < |files| && EvictedAt(trail, trees, files, cs, j, maxRawBytes, files[i])
      ensures forall i :: 0 <= i < |files| && files[i] in mirror ==>
                SweptTo(old(mirror), mirror[files[i]], files[i], trees[i], included(files[i]), cs[i])
      ensures forall p :: p in mirror && p !in files ==> p in old(mirror) && mirror[p] == old(mirror)[p]
    {
      var i := 0;
      trail := [mirror];
      while i < |files|
        invariant 0 <= i <= |files|
        invariant |trail| == i + 1 && trail[0] == old(mirror) && trail[i] == mirror
        invariant Swept(trail, trees, files, cs, i, included, maxRawBytes)
        invariant AllPresent(trail, trees, files, cs, i, included, maxRawBytes)
      {
        var file := files[i];
        if included(file) {
          var bytes, listing := MirrorFile(trees[i], file, cs[i]);
        }
        SweptOn(trail, mirror, trees, files, cs, i, included, maxRawBytes);
        PresentOn(trail, mirror, trees, files, cs, i, included, maxRawBytes);
        trail := trail + [mirror];
        i := i + 1;
      }
      assert files[..|files|] == files;
    }
  }

  /** Whether a step copies: the transcript is included and there, the copy works, and the mirror has
      fewer bytes of it or an older time. */
  predicate Copies(mirror: Tree, source: Tree, file: string, included: bool, c: Circumstances) {
    included && file in source && !c.copyFails
    && !(file in mirror && |source[file].bytes| <= |mirror[file].bytes| && source[file].mtimeMs <= mirror[file].mtimeMs)
  }

  /** All but the file and what fails to unlink. */
  function Others(t: Tree, file: string, stuck: set<string>): set<string> {
    set p | p in t && p != file && p !in stuck
  }

  ghost predicate Newest(t: Tree, file: string)
    requires file in t
  {
    forall p :: p in t && p != file ==> t[p].mtimeMs < t[file].mtimeMs
  }

  /** What a step that copies leaves: the mirror with the copy in it, all of it when what the walk sees
      fits the cap. Unseen files, empty ones and those that fail to unlink stay in any case, and a copy
      newer than all else seen stays exactly when it fits the cap beside those that fail to unlink. */
  ghost predicate CopiedOver(before: Tree, after: Tree, file: string, copy: File, c: Circumstances, cap: nat) {
    var t := before[file := copy];
    && (forall p :: p in after ==> p in t && after[p] == t[p])
    && (TotalBytes(t - c.unseen) <= cap ==> after == t)
    && (forall p :: p in t && (p in c.unseen || p in c.stuck || t[p].bytes == []) ==> p in after)
    && (file !in c.unseen + c.stuck && copy.bytes != [] && Newest(t - c.unseen, file) ==>
          (file in after <==> TotalBytes(t - c.unseen - Others(t - c.unseen, file, c.stuck)) <= cap))
  }

  /** One file's turn in a sweep. */
  ghost predicate Turn(before: Tree, after: Tree, source: Tree, file: string, included: bool, c: Circumstances, cap: nat) {
    if Copies(before, source, file, included, c) then
      CopiedOver(before, after, file, File(source[file].bytes + c.growth, c.copyMs), c, cap)
    else
      after == before
  }

  /** At its `j`-th turn the sweep copied, what the walk saw was over the cap, and `p` went. */
  ghost predicate EvictedAt(trail: seq<Tree>, trees: seq<Tree>, files: seq<string>, cs: seq<Circumstances>, j: nat, cap: nat,
                            p: string)
    requires j + 1 < |trail| && j < |files| && |trees| == |cs| == |files|
  {
    && files[j] in trees[j] && !cs[j].copyFails
    && var t := trail[j][files[j] := File(trees[j][files[j]].bytes + cs[j].growth, cs[j].copyMs)];
       p in t && p !in trail[j + 1] && TotalBytes(t - cs[j].unseen) > cap
  }

  /** After `i` turns, each was as it should be, each copy the sweep made and left is as it should be, and
      no other copy has changed. */
  ghost predicate Swept(trail: seq<Tree>, trees: seq<Tree>, files: seq<string>, cs: seq<Circumstances>, i: nat,
                        included: string -> bool, cap: nat) {
    && |trail| == i + 1 && i <= |files| && |trees| == |cs| == |files|
    && (forall k :: 0 <= k < i ==> Turn(trail[k], trail[k + 1], trees[k], files[k], included(files[k]), cs[k], cap))
    && (forall k :: 0 <= k < i && files[k] in trail[i] ==>
          SweptTo(trail[0], trail[i][files[k]], files[k], trees[k], included(files[k]), cs[k]))
    && (forall p :: p in trail[i] && p !in files[..i] ==> p in trail[0] && trail[i][p] == trail[0][p])
  }

  /** After `i` turns, each transcript that was there, included and did not fail is mirrored, unless an
      eviction over the cap took it from its turn on. */
  ghost predicate AllPresent(trail: seq<Tree>, trees: seq<Tree>, files: seq<string>, cs: seq<Circumstances>, i: nat,
                             included: string -> bool, cap: nat)
    requires |trail| == i + 1 && i <= |files| && |trees| == |cs| == |files|
  {
    forall k :: 0 <= k < i && included(files[k]) && files[k] in trees[k] && !cs[k].copyFails ==>
      files[k] in trail[i] || exists j :: k <= j < i && EvictedAt(trail, trees, files, cs, j, cap, files[k])
  }

  lemma SweptOn(trail: seq<Tree>, after: Tree, trees: seq<Tree>, files: seq<string>, cs: seq<Circumstances>, i: nat,
                included: string -> bool, cap: nat)
    requires Swept(trail, trees, files, cs, i, included, cap) && i < |files| && Distinct(files)
    requires Turn(trail[i], after, trees[i], files[i], included(files[i]), cs[i], cap)
    requires files[i] in trees[i] && files[i] in trail[0] ==> trail[0][files[i]].bytes <= trees[i][files[i]].bytes
    ensures Swept(trail + [after], trees, files, cs, i + 1, included, cap)
  {
    var trail' := trail + [after];
    var file := files[i];
    assert files[..i + 1] == files[..i] + [file] && file !in files[..i];
    forall k | 0 <= k < i && files[k] in after ensures files[k] in trail[i] && after[files[k]] == trail[i][files[k]] {
      assert files[k] != file;
    }
    assert file in trail[i] ==> file in trail[0] && trail[i][file] == trail[0][file];
    forall k | 0 <= k < i ensures Turn(trail'[k], trail'[k + 1], trees[k], files[k], included(files[k]), cs[k], cap) {
      assert trail'[k] == trail[k] && trail'[k + 1] == trail[k + 1];
    }
  }

  lemma PresentOn(trail: seq<Tree>, after: Tree, trees: seq<Tree>, files: seq<string>, cs: seq<Circumstances>, i: nat,
                  included: string -> bool, cap: nat)
    requires |trail| == i + 1 && i < |files| && |trees| == |cs| == |files|
    requires AllPresent(trail, trees, files, cs, i, included, cap)
    requires Turn(trail[i], after, trees[i], files[i], included(files[i]), cs[i], cap)
    ensures AllPresent(trail + [after], trees, files, cs, i + 1, included, cap)
  {
    TurnTakesOnlyOverCap(trail, after, trees, files, cs, i, included(files[i]), cap);
    forall k | 0 <= k < i && included(files[k]) && files[k] in trees[k] && !cs[k].copyFails && files[k] !in after
      ensures exists j :: k <= j < i + 1 && EvictedAt(trail + [after], trees, files, cs, j, cap, files[k])
    {
      if files[k] in trail[i] {
        assert EvictedAt(trail + [after], trees, files, cs, i, cap, files[k]);
      } else {
        var j :| k <= j < i && EvictedAt(trail, trees, files, cs, j, cap, files[k]);
        assert EvictedAt(trail + [after], trees, files, cs, j, cap, files[k]);
      }
    }
  }

  lemma TurnTakesOnlyOverCap(trail: seq<Tree>, after: Tree, trees: seq<Tree>, files: seq<string>, cs: seq<Circumstances>,
                             i: nat, included: bool, cap: nat)
    requires |trail| == i + 1 && i < |files| && |trees| == |cs| == |files|
    requires Turn(trail[i], after, trees[i], files[i], included, cs[i], cap)
    ensures forall j: nat, p :: j < i && EvictedAt(trail, trees, files, cs, j, cap, p) ==>
              EvictedAt(trail + [after], trees, files, cs, j, cap, p)
    ensures forall p :: p in trail[i] && p !in after ==> EvictedAt(trail + [after], trees, files, cs, i, cap, p)
    ensures included && files[i] in trees[i] && !cs[i].copyFails && files[i] !in after ==>
              EvictedAt(trail + [after], trees, files, cs, i, cap, files[i])
  {}

  /** What a sweep leaves of one transcript's copy, when it leaves one. */
  ghost predicate SweptTo(mirror: Tree, copy: File, file: string, source: Tree, included: bool, c: Circumstances) {
    if included && file in source && !c.copyFails then
      source[file].bytes <= copy.bytes <= source[file].bytes + c.growth
    else
      file in mirror && copy == mirror[file]
  }

  /** What the walk did not see is not evicted, and the pass treats the rest as if it were all. */
  lemma UnseenStay(t: Tree, unseen: set<string>, listing: seq<Entry>, cap: nat, stuck: set<string>)
    requires Lists(listing, t - unseen)
    ensures Survivors(t, listing, cap, stuck) - unseen == Survivors(t - unseen, listing, cap, stuck)
    ensures forall p :: p in t && p in unseen ==> p in Survivors(t, listing, cap, stuck)
  {
    SortKeepsListing(listing);
    EvictedAreListed(SortByTime(listing), SumBytes(listing), cap, stuck);
  }

  lemma EvictStep(files: seq<Entry>, i: nat, gone: seq<Entry>, total: int, cap: nat, stuck: set<string>)
    requires i < |files| && total > cap
    ensures var f := files[i];
            && Files(gone + [f]) == Files(gone) + {f.file}
            && SumBytes(gone + [f]) == SumBytes(gone) + f.bytes
            && gone + Evicted(files[i..], total, cap, stuck)
               == if f.file in stuck then gone + Evicted(files[i + 1..], total, cap, stuck)
                  else gone + [f] + Evicted(files[i + 1..], total - f.bytes, cap, stuck)
  {
    var f := files[i];
    assert files[i..][0] == f && files[i..][1..] == files[i + 1..];
    SumOfLast(gone, f);
  }

  /** What the copy holds: the source as it is by the time it is copied. */
  function Copied(source: Tree, file: string, c: Circumstances): File
    requires file in source
  {
    File(source[file].bytes + c.growth, c.copyMs)
  }

  /** The mirror after one mirror step. */
  function MirroredTree(mirror: Tree, source: Tree, file: string, included: bool, c: Circumstances,
                        listing: seq<Entry>, cap: nat): Tree
  {
    if !included || file !in source || AlreadyMirrored(Lookup(mirror, file), source[file]) || c.copyFails then mirror
    else Survivors(mirror[file := Copied(source, file, c)], listing, cap, c.stuck)
  }

  // ----- eviction -----

  /** The running total is the bytes still present, whichever unlinks fail. */
  lemma RunningTotal(t: Tree, listing: seq<Entry>, cap: nat, stuck: set<string>)
    requires Lists(listing, t)
    ensures SumBytes(listing) == TotalBytes(t)
    ensures TotalBytes(Survivors(t, listing, cap, stuck))
         == SumBytes(listing) - SumBytes(Evicted(SortByTime(listing), SumBytes(listing), cap, stuck))
  {
    var files := SortByTime(listing);
    SumIsTotal(listing, t);
    SortedLists(listing, t);
    EvictedAreListed(files, SumBytes(listing), cap, stuck);
    EvictedUnique(files, SumBytes(listing), cap, stuck);
    RemovingEntries(t, Evicted(files, SumBytes(listing), cap, stuck));
  }

  /** Whichever unlinks fail, the pass ends at or under the cap unless every non-empty file left is
      one that failed to unlink; with no failure it always ends at or under the cap. */
  lemma EvictionMeetsCap(t: Tree, listing: seq<Entry>, cap: nat, stuck: set<string>)
    requires Lists(listing, t)
    ensures var left := Survivors(t, listing, cap, stuck);
            || TotalBytes(left) <= cap
            || (stuck != {} && forall p :: p in left && left[p].bytes != [] ==> p in stuck)
  {
    var files := SortByTime(listing);
    RunningTotal(t, listing, cap, stuck);
    SortKeepsListing(listing);
    StopsUnderCap(files, SumBytes(listing), cap, stuck);
    if stuck == {} {
      ShortestPrefix(files, SumBytes(listing), cap);
    }
  }

  /** With no failure, what goes is the shortest oldest-first prefix that makes the rest fit. */
  lemma EvictsShortestOldestPrefix(t: Tree, listing: seq<Entry>, cap: nat) returns (files: seq<Entry>, n: nat)
    requires Lists(listing, t)
    ensures Lists(files, t) && OldestFirst(files) && n <= |files|
    ensures Survivors(t, listing, cap, {}) == t - Files(files[..n])
    ensures TotalBytes(t - Files(files[..n])) <= cap
    ensures forall k :: 0 <= k < n ==> TotalBytes(t - Files(files[..k])) > cap
  {
    files := SortByTime(listing);
    SumIsTotal(listing, t);
    SortKeepsListing(listing);
    SortedLists(listing, t);
    ShortestPrefix(files, SumBytes(listing), cap);
    n := |Evicted(files, SumBytes(listing), cap, {})|;
    forall k | 0 <= k <= n ensures TotalBytes(t - Files(files[..k])) == TotalBytes(t) - SumBytes(files[..k]) {
      UniquePrefix(files, k);
      RemovingEntries(t, files[..k]);
    }
  }

  lemma {:induction false} UniquePrefix(entries: seq<Entry>, k: nat)
    requires Unique(entries) && k <= |entries|
    ensures Unique(entries[..k])
  {
    if k > 0 {
      UniquePrefix(entries[1..], k - 1);
      assert entries[..k][1..] == entries[1..][..k - 1];
      assert forall e :: e in entries[1..][..k - 1] ==> e in entries[1..];
    }
  }

  // ----- the mirror as a prefix -----

  datatype Step =
    | Grow(file: string, more: seq<byte>, ms: int)
    | Delete(file: string)
    | Mirror(file: string, c: Circumstances, listing: seq<Entry>)

  /** Sources are append-only: a deleted transcript does not come back under its name. */
  ghost predicate Allowed(w: World, step: Step) {
    match step
    case Grow(file, _, _) => file in w.source || file !in w.held
    case Delete(_) => true
    case Mirror(file, c, listing) =>
      file in w.source ==> Lists(listing, w.mirror[file := Copied(w.source, file, c)] - c.unseen)
  }

  function Apply(w: World, step: Step, included: string -> bool, cap: nat): World {
    match step
    case Grow(file, more, ms) => Grown(w, file, more, ms)
    case Delete(file) => w.(source := w.source - {file})
    case Mirror(file, c, listing) =>
      var mirror := MirroredTree(w.mirror, w.source, file, included(file), c, listing, cap);
      var grown := if file in w.source && c.growth != [] then Grown(w, file, c.growth, c.growthMs) else w;
      grown.(mirror := mirror)
  }

  ghost predicate Inv(w: World) {
    && (forall p :: p in w.source ==> p in w.held && w.source[p].bytes == w.held[p])
    && (forall p :: p in w.mirror ==> p in w.held && w.mirror[p].bytes <= w.held[p])
  }

  function Run(w: World, steps: seq<Step>, included: string -> bool, cap: nat): World
    decreases |steps|
  {
    if steps == [] then w else Run(Apply(w, steps[0], included, cap), steps[1..], included, cap)
  }

  ghost predicate RunAllowed(w: World, steps: seq<Step>, included: string -> bool, cap: nat)
    decreases |steps|
  {
    steps == [] ||
    (Allowed(w, steps[0]) && RunAllowed(Apply(w, steps[0], included, cap), steps[1..], included, cap))
  }

  /** One step keeps every mirror file a prefix of what its source has held, and a mirror file
      that is still there has not shrunk. */
  lemma StepKeepsPrefixes(w: World, step: Step, included: string -> bool, cap: nat)
    requires Inv(w) && Allowed(w, step)
    ensures Inv(Apply(w, step, included, cap))
    ensures var w' := Apply(w, step, included, cap);
            forall p :: p in w.mirror && p in w'.mirror ==> w.mirror[p].bytes <= w'.mirror[p].bytes
  {
    if step.Mirror? && step.file in w.source {
      var p := step.file;
      if p in w.mirror {
        assert w.mirror[p].bytes <= w.held[p] == w.source[p].bytes;
        assert w.source[p].bytes <= w.source[p].bytes + step.c.growth;
      }
    }
  }

  /** A run takes its steps one after the other. */
  lemma {:induction false} RunIsSteps(w: World, steps: seq<Step>, last: Step, included: string -> bool, cap: nat)
    ensures Run(w, [], included, cap) == w
    ensures Run(w, steps + [last], included, cap) == Apply(Run(w, steps, included, cap), last, included, cap)
    decreases |steps|
  {
    if steps == [] {
      assert ([] + [last])[1..] == [];
      assert Run(w, [last], included, cap) == Run(Apply(w, last, included, cap), [last][1..], included, cap);
    } else {
      assert (steps + [last])[1..] == steps[1..] + [last];
      RunIsSteps(Apply(w, steps[0], included, cap), steps[1..], last, included, cap);
    }
  }

  lemma {:induction false} MirrorHoldsPrefixes(w: World, steps: seq<Step>, included: string -> bool, cap: nat)
    requires Inv(w) && RunAllowed(w, steps, included, cap)
    ensures Inv(Run(w, steps, included, cap))
    decreases |steps|
  {
    if steps != [] {
      StepKeepsPrefixes(w, steps[0], included, cap);
      MirrorHoldsPrefixes(Apply(w, steps[0], included, cap), steps[1..], included, cap);
    }
  }

  /** A mirror step that is skipped as already mirrored is skipped because the mirror equals the
      source; one that copies leaves the mirror equal to the source, unless the file is evicted. */
  lemma NeverFallsBehind(w: World, file: string, c: Circumstances, listing: seq<Entry>, included: string -> bool, cap: nat)
    requires Inv(w) && Allowed(w, Mirror(file, c, listing))
    requires included(file) && file in w.source && !c.copyFails
    ensures var w' := Apply(w, Mirror(file, c, listing), included, cap);
            if AlreadyMirrored(Lookup(w.mirror, file), w.source[file])
            then file in w'.mirror && w'.mirror[file].bytes == w.source[file].bytes
            else file in w'.mirror ==> w'.mirror[file].bytes == w'.source[file].bytes
  {
    if file in w.mirror && |w.mirror[file].bytes| >= |w.source[file].bytes| {
      assert w.mirror[file].bytes <= w.held[file];
    }
  }

  /** Neither growth nor deletion of a source touches the mirror: only a mirror step over the cap
      removes a copy. */
  lemma CopyOutlivesSource(w: World, step: Step, included: string -> bool, cap: nat, p: string)
    requires Inv(w) && Allowed(w, step) && p in w.mirror && p !in Apply(w, step, included, cap).mirror
    ensures step.Mirror? && step.file in w.source
    ensures TotalBytes(w.mirror[step.file := Copied(w.source, step.file, step.c)] - step.c.unseen) > cap
    ensures p !in step.c.unseen
  {
    var t := w.mirror[step.file := Copied(w.source, step.file, step.c)];
    SumIsTotal(step.listing, t - step.c.unseen);
    UnseenStay(t, step.c.unseen, step.listing, cap, step.c.stuck);
  }

  /** Once the mirror is at or under its cap every step leaves what its walk sees there, as long as
      unlinks work: all of it when the walk sees all. */
  lemma StepsStayUnderCap(w: World, step: Step, included: string -> bool, cap: nat)
    requires Allowed(w, step) && TotalBytes(w.mirror) <= cap && (step.Mirror? ==> step.c.stuck == {})
    ensures var left := Apply(w, step, included, cap).mirror;
            if step.Mirror? && step.c.unseen != {} then TotalBytes(left - step.c.unseen) <= cap else TotalBytes(left) <= cap
  {
    if step.Mirror? {
      FewerBytes(w.mirror, step.c.unseen);
      if step.file in w.source {
        var t := w.mirror[step.file := Copied(w.source, step.file, step.c)];
        UnseenStay(t, step.c.unseen, step.listing, cap, {});
        EvictionMeetsCap(t - step.c.unseen, step.listing, cap, {});
        assert t - {} == t;
      }
    }
  }

  lemma {:induction false} FewerBytes(t: Tree, out: set<string>)
    ensures TotalBytes(t - out) <= TotalBytes(t)
    decreases |t|
  {
    if t != map[] {
      var p :| p in t;
      TotalWithout(t, p);
      FewerBytes(t - {p}, out);
      OneFewer(t, p, out);
    }
  }

  lemma OneFewer(t: Tree, p: string, out: set<string>)
    requires p in t
    ensures TotalBytes(t - out) <= |t[p].bytes| + TotalBytes(t - {p} - out)
  {
    if p in out {
      assert t - {p} - out == t - out;
    } else {
      assert t - out - {p} == t - {p} - out;
      TotalWithout(t - out, p);
    }
  }

  lemma {:induction false} SortedPairs(files: seq<Entry>)
    requires OldestFirst(files) && Unique(files)
    ensures forall i, j :: 0 <= i < j < |files| ==>
              files[i].mtimeMs <= files[j].mtimeMs && files[i].file != files[j].file
  {
    if files != [] {
      SortedPairs(files[1..]);
      forall j | 0 < j < |files|
        ensures files[0].mtimeMs <= files[j].mtimeMs && files[0].file != files[j].file
      {
        assert files[j] == files[1..][j - 1] && files[j] in files[1..];
      }
    }
  }

  lemma EmptyStep(t: Tree, p: string, out: set<string>)
    requires p in t && (p in out ==> t[p].bytes == [])
    ensures TotalBytes(t - out) == |t[p].bytes| + TotalBytes(t - {p} - out)
  {
    if p in out {
      assert t - {p} - out == t - out;
    } else {
      assert t - out - {p} == t - {p} - out;
      TotalWithout(t - out, p);
    }
  }

  lemma {:induction false} EmptyWeighNothing(t: Tree, out: set<string>)
    requires forall p :: p in out && p in t ==> t[p].bytes == []
    ensures TotalBytes(t - out) == TotalBytes(t)
    decreases |t|
  {
    if t != map[] {
      var p :| p in t;
      TotalWithout(t, p);
      EmptyWeighNothing(t - {p}, out);
      EmptyStep(t, p, out);
    }
  }

  /** A file that is strictly the newest survives the pass exactly when it is empty, fails to unlink,
      or fits the cap beside the files that fail to unlink. */
  lemma NewestSurvivesExactly(t: Tree, listing: seq<Entry>, cap: nat, stuck: set<string>, file: string)
    requires Lists(listing, t) && file in t && Newest(t, file)
    ensures file in Survivors(t, listing, cap, stuck) <==>
              t[file].bytes == [] || file in stuck || TotalBytes(t - Others(t, file, stuck)) <= cap
  {
    var files, total := SortByTime(listing), SumBytes(listing);
    SortedLists(listing, t);
    SortKeepsListing(listing);
    EvictedAreListed(files, total, cap, stuck);
    if t[file].bytes != [] && file !in stuck {
      var loose := Loose(files, stuck);
      LooseAre(files, stuck);
      LooseOldestFirst(files, stuck);
      NewestIsLast(loose, t, file);
      UniquePrefix(loose, |loose| - 1);
      PairsDiffer(loose);
      GoneButNewest(t, files, loose, stuck, file);
      RestIsOthers(t, Others(t, file, stuck), loose[..|loose| - 1]);
      SumIsTotal(listing, t);
      LastGoesExactly(files, total, cap, stuck);
    }
  }

  /** The last entry that can be unlinked goes exactly when all before it do not bring the total to the cap. */
  lemma LastGoesExactly(files: seq<Entry>, total: int, cap: nat, stuck: set<string>)
    requires Unique(files) && Loose(files, stuck) != []
    ensures var loose := Loose(files, stuck);
            var k := |loose| - 1;
            loose[k].file in Files(Evicted(files, total, cap, stuck)) <==> total - SumBytes(loose[..k]) > cap
  {
    var gone, loose := Evicted(files, total, cap, stuck), Loose(files, stuck);
    var k := |loose| - 1;
    LooseAre(files, stuck);
    EvictedExactly(files, total, cap, stuck);
    if gone != loose {
      SumOfPrefix(loose, |gone|, k);
      NotInPrefix(loose, |gone|, k);
    } else {
      assert loose[k] in gone;
    }
  }

  lemma NotInPrefix(entries: seq<Entry>, m: nat, k: nat)
    requires m <= k < |entries| && Unique(entries)
    ensures entries[k].file !in Files(entries[..m])
  {
    PairsDiffer(entries);
  }

  lemma {:induction false} PairsDiffer(entries: seq<Entry>)
    requires Unique(entries)
    ensures forall i, j :: 0 <= i < j < |entries| ==> entries[i].file != entries[j].file
  {
    if entries != [] {
      PairsDiffer(entries[1..]);
      forall j | 0 < j < |entries| ensures entries[0].file != entries[j].file {
        assert entries[j] == entries[1..][j - 1] && entries[j] in entries[1..];
      }
    }
  }

  lemma {:induction false} SumOfPrefix(entries: seq<Entry>, m: nat, k: nat)
    requires m <= k <= |entries|
    ensures SumBytes(entries[..m]) <= SumBytes(entries[..k])
  {
    if m > 0 {
      SumOfPrefix(entries[1..], m - 1, k - 1);
      assert entries[..m][1..] == entries[1..][..m - 1] && entries[..k][1..] == entries[1..][..k - 1];
    }
  }

  lemma NewestIsLast(entries: seq<Entry>, t: Tree, file: string)
    requires OldestFirst(entries) && Unique(entries) && forall e :: e in entries ==> Describes(e, t)
    requires file in t && Newest(t, file) && file in Files(entries)
    ensures entries != [] && entries[|entries| - 1].file == file
  {
    SortedPairs(entries);
    var e :| e in entries && e.file == file;
    var i :| 0 <= i < |entries| && entries[i] == e;
    var last := entries[|entries| - 1];
    assert last in entries && Describes(last, t) && Describes(e, t);
  }

  lemma {:induction false} LooseOldestFirst(files: seq<Entry>, stuck: set<string>)
    requires OldestFirst(files)
    ensures OldestFirst(Loose(files, stuck))
  {
    if files != [] {
      LooseOldestFirst(files[1..], stuck);
      LooseAre(files[1..], stuck);
      if files[0].file in stuck {
        assert Loose(files, stuck) == Loose(files[1..], stuck);
      } else {
        assert Loose(files, stuck)[1..] == Loose(files[1..], stuck);
      }
    }
  }

  /** All but the last of the entries that can be unlinked: the others, except for empty ones. */
  lemma GoneButNewest(t: Tree, files: seq<Entry>, loose: seq<Entry>, stuck: set<string>, file: string)
    requires forall e :: e in files ==> Describes(e, t)
    requires forall p :: p in t && t[p].bytes != [] ==> exists e :: e in files && e.file == p
    requires forall e :: e in loose <==> e in files && e.file !in stuck
    requires loose != [] && loose[|loose| - 1].file == file
    requires forall i, j :: 0 <= i < j < |loose| ==> loose[i].file != loose[j].file
    ensures var gone := loose[..|loose| - 1];
            && (forall e :: e in gone ==> Describes(e, t) && e.file in Others(t, file, stuck))
            && (forall p :: p in Others(t, file, stuck) && t[p].bytes != [] ==> p in Files(gone))
  {
    var k := |loose| - 1;
    AllButLast(loose, k, file);
    forall p | p in Others(t, file, stuck) && t[p].bytes != [] ensures p in Files(loose[..k]) {
      var e :| e in files && e.file == p;
      assert e in loose[..k];
    }
  }

  lemma AllButLast(entries: seq<Entry>, k: nat, file: string)
    requires k == |entries| - 1 && entries[k].file == file
    requires forall i, j :: 0 <= i < j < |entries| ==> entries[i].file != entries[j].file
    ensures forall e :: e in entries[..k] <==> e in entries && e.file != file
  {
    forall e | e in entries && e.file != file ensures e in entries[..k] {
      var i :| 0 <= i < |entries| && entries[i] == e;
      assert entries[..k][i] == e;
    }
  }

  lemma RestIsOthers(t: Tree, others: set<string>, gone: seq<Entry>)
    requires Unique(gone) && forall e :: e in gone ==> Describes(e, t) && e.file in others
    requires forall p :: p in others && p in t && t[p].bytes != [] ==> p in Files(gone)
    ensures TotalBytes(t - others) == TotalBytes(t) - SumBytes(gone)
  {
    RemovingEntries(t, gone);
    EmptyWeighNothing(t - Files(gone), others);
    assert t - Files(gone) - others == t - others;
  }

  /** A copy that is strictly the newest file and fits the cap on its own survives its own step. */
  lemma NewestSurvives(t: Tree, listing: seq<Entry>, cap: nat, file: string)
    requires Lists(listing, t) && file in t && Newest(t, file) && |t[file].bytes| <= cap
    ensures file in Survivors(t, listing, cap, {})
  {
    NewestSurvivesExactly(t, listing, cap, {}, file);
    var alone := t - Others(t, file, {});
    assert alone - {file} == map[];
    TotalWithout(alone, file);
  }

  lemma PassKeeps(t: Tree, listing: seq<Entry>, unseen: set<string>, cap: nat, stuck: set<string>)
    requires Lists(listing, t - unseen)
    ensures var after := Survivors(t, listing, cap, stuck);
            && (forall p :: p in after ==> p in t && after[p] == t[p])
            && (TotalBytes(t - unseen) <= cap ==> after == t)
            && (forall p :: p in t && (p in unseen || p in stuck || t[p].bytes == []) ==> p in after)
  {
    var files := SortByTime(listing);
    SumIsTotal(listing, t - unseen);
    SortKeepsListing(listing);
    EvictedAreListed(files, SumBytes(listing), cap, stuck);
    forall e | e in Evicted(files, SumBytes(listing), cap, stuck)
      ensures e.file !in stuck && e.file !in unseen && e.file in t && t[e.file].bytes != []
    {
      assert e in listing && Describes(e, t - unseen) && e.bytes > 0;
    }
    assert t - {} == t;
  }

  /** The step's copy-and-evict leaves exactly that. */
  lemma CopyIsMirrored(mirror: Tree, source: Tree, file: string, c: Circumstances, listing: seq<Entry>, cap: nat)
    requires file in source && Lists(listing, mirror[file := Copied(source, file, c)] - c.unseen)
    ensures var copy := File(source[file].bytes + c.growth, c.copyMs);
            CopiedOver(mirror, Survivors(mirror[file := Copied(source, file, c)], listing, cap, c.stuck), file, copy, c, cap)
  {
    var t := mirror[file := Copied(source, file, c)];
    PassKeeps(t, listing, c.unseen, cap, c.stuck);
    if file !in c.unseen && Newest(t - c.unseen, file) {
      UnseenStay(t, c.unseen, listing, cap, c.stuck);
      NewestSurvivesExactly(t - c.unseen, listing, cap, c.stuck, file);
      assert file in Survivors(t, listing, cap, c.stuck) <==> file in Survivors(t - c.unseen, listing, cap, c.stuck);
    }
  }

  /** A mirror step copies exactly under its condition and leaves what `CopiedOver` says; any other step
      leaves the mirror alone. */
  lemma MirrorStepExactly(w: World, step: Step, included: string -> bool, cap: nat)
    requires Allowed(w, step)
    ensures var after := Apply(w, step, included, cap).mirror;
            if step.Mirror? && Copies(w.mirror, w.source, step.file, included(step.file), step.c) then
              CopiedOver(w.mirror, after, step.file, File(w.source[step.file].bytes + step.c.growth, step.c.copyMs), step.c, cap)
            else after == w.mirror
  {
    if step.Mirror? && Copies(w.mirror, w.source, step.file, included(step.file), step.c) {
      CopyIsMirrored(w.mirror, w.source, step.file, step.c, step.listing, cap);
    }
  }
}
