/**
 * The migration ledger of the integration-test harness. A run replays the files whose version is
 * not in the ledger; any run may stop before any of its commands, and the next one starts over.
 */
module Migrations {
  import opened Common

  /** `skip` marks the MATERIALIZE statements the harness leaves out. */
  datatype Statement = Statement(text: string, skip: bool)

  /** A migration file: its numeric prefix, name and split statements. */
  datatype File = File(version: int, name: string, statements: seq<Statement>)

  /** What landed on the database: one statement of a file, or its ledger row. */
  datatype Entry = Ran(name: string, text: string) | Recorded(name: string, version: int)

  /** `tables` are those of a database without a ledger; `history` is what landed since the
      ledger was created. */
  datatype Db = Db(tables: seq<string>, ledger: Option<seq<int>>, history: seq<Entry>)

  datatype Outcome = Outcome(db: Db, finished: bool)

  function Kept(f: File, upTo: nat): seq<Entry>
    requires upTo <= |f.statements|
  {
    if upTo == 0 then []
    else
      var s := f.statements[upTo - 1];
      Kept(f, upTo - 1) + if s.skip then [] else [Ran(f.name, s.text)]
  }

  /** The statements a file has to land, in order. */
  function Work(f: File): seq<Entry> {
    Kept(f, |f.statements|)
  }

  function Block(f: File): seq<Entry> {
    Work(f) + [Recorded(f.name, f.version)]
  }

  function Versions(files: seq<File>): seq<int> {
    seq(|files|, i requires 0 <= i < |files| => files[i].version)
  }

  /** The listing of the directory: by version, files of one version by name. */
  function ByVersion(nameLe: Order<string>): Order<File> {
    (a: File, b: File) => a.version < b.version || (a.version == b.version && nameLe(a.name, b.name))
  }

  function Listing(dir: seq<File>, nameLe: Order<string>): seq<File> {
    Sort(dir, ByVersion(nameLe))
  }

  /** The file loop with `budget` commands to go before the run stops. */
  function RunFiles(db: Db, files: seq<File>, applied: set<int>, budget: nat): Outcome
    requires db.ledger.Some?
    decreases |files|
  {
    if files == [] then Outcome(db, true)
    else
      var f := files[0];
      if f.version in applied then RunFiles(db, files[1..], applied, budget)
      else if budget <= |Work(f)| then Outcome(db.(history := db.history + Work(f)[..budget]), false)
      else
        var done := db.(history := db.history + Block(f), ledger := Some(db.ledger.value + [f.version]));
        RunFiles(done, files[1..], applied, budget - |Block(f)|)
  }

  function SetOf(versions: seq<int>): set<int> {
    set v | v in versions
  }

  /** A whole run: a database without a ledger is emptied table by table and given one first. */
  function Run(db: Db, files: seq<File>, budget: nat): Outcome {
    match db.ledger
    case Some(versions) => RunFiles(db, files, SetOf(versions), budget)
    case None =>
      if budget <= |db.tables| then Outcome(db.(tables := db.tables[budget..]), false)
      else RunFiles(Db([], Some([]), []), files, {}, budget - |db.tables| - 1)
  }

  /** Any number of runs, each stopped where its budget says. */
  function Runs(db: Db, files: seq<File>, budgets: seq<nat>): Outcome {
    if budgets == [] then Outcome(db, false)
    else
      var before := Runs(db, files, budgets[..|budgets| - 1]);
      Run(before.db, files, budgets[|budgets| - 1])
  }

  // ----- the loops -----

  class Database {
    var tables: seq<string>
    var ledger: Option<seq<int>>
    var history: seq<Entry>

    function Contents(): Db
      reads this
    {
      Db(tables, ledger, history)
    }

    constructor (db: Db)
      ensures Contents() == db
    {
      tables, ledger, history := db.tables, db.ledger, db.history;
    }

    /** The applied versions, or None when the run stopped while rebuilding. */
    method AppliedVersions(budget: nat) returns (applied: Option<set<int>>, left: nat)
      modifies this
      ensures old(ledger).Some? ==>
                Contents() == old(Contents()) && applied == Some(SetOf(ledger.value)) && left == budget
      ensures old(ledger).None? && budget <= |old(tables)| ==>
                applied.None? && Contents() == old(Contents()).(tables := old(tables)[budget..])
      ensures old(ledger).None? && budget > |old(tables)| ==>
                applied == Some({}) && left == budget - |old(tables)| - 1 && Contents() == Db([], Some([]), [])
    {
      left := budget;
      if ledger.Some? {
        return Some(set v | v in ledger.value), left;
      }
      while tables != []
        invariant ledger.None? && history == old(history)
        invariant |tables| <= |old(tables)| && left + |old(tables)| == budget + |tables|
        invariant tables == old(tables)[|old(tables)| - |tables|..]
        decreases |tables|
      {
        if left == 0 {
          return None, 0;
        }
        tables, left := tables[1..], left - 1;
      }
      if left == 0 {
        return None, 0;
      }
      ledger, history, left := Some([]), [], left - 1;
      return Some({}), left;
    }

    /** One file, statement by statement, then its ledger row. */
    method RunFile(f: File, budget: nat) returns (ok: bool, left: nat)
      requires ledger.Some?
      modifies this
      ensures ok <==> budget > |Work(f)|
      ensures ok ==>
                && left == budget - |Block(f)|
                && Contents() == old(Contents()).(history := old(history) + Block(f), ledger := Some(old(ledger).value + [f.version]))
      ensures !ok ==> Contents() == old(Contents()).(history := old(history) + Work(f)[..budget])
    {
      left := budget;
      var i := 0;
      while i < |f.statements|
        invariant 0 <= i <= |f.statements|
        invariant left + |Kept(f, i)| == budget
        invariant Contents() == old(Contents()).(history := old(history) + Kept(f, i))
      {
        var stmt := f.statements[i];
        KeptPrefix(f, i + 1);
        if !stmt.skip {
          if left == 0 {
            KeptPrefix(f, i);
            return false, 0;
          }
          history, left := history + [Ran(f.name, stmt.text)], left - 1;
        }
        i := i + 1;
      }
      if left == 0 {
        assert Work(f)[..budget] == Work(f);
        return false, 0;
      }
      history := history + [Recorded(f.name, f.version)];
      assert history == old(history) + Block(f);
      ledger, left := Some(ledger.value + [f.version]), left - 1;
      return true, left;
    }

    method RunMigrations(dir: seq<File>, nameLe: Order<string>, budget: nat) returns (finished: bool)
      modifies this
      ensures Outcome(Contents(), finished) == Run(old(Contents()), Listing(dir, nameLe), budget)
    {
      var applied, left := AppliedVersions(budget);
      if applied.None? {
        return false;
      }
      var files := Listing(dir, nameLe);
      ghost var start, startLeft := Contents(), left;
      var i := 0;
      while i < |files|
        invariant 0 <= i <= |files|
        invariant ledger.Some?
        invariant RunFiles(Contents(), files[i..], applied.value, left) == RunFiles(start, files, applied.value, startLeft)
      {
        var file := files[i];
        assert files[i..][0] == file && files[i..][1..] == files[i + 1..];
        if file.version !in applied.value {
          var ok, rest := RunFile(file, left);
          if !ok {
            return false;
          }
          left := rest;
        }
        i := i + 1;
      }
      return true;
    }
  }

  lemma {:induction false} KeptPrefix(f: File, upTo: nat)
    requires upTo <= |f.statements|
    ensures |Kept(f, upTo)| <= |Work(f)| && Work(f)[..|Kept(f, upTo)|] == Kept(f, upTo)
    decreases |f.statements| - upTo
  {
    if upTo < |f.statements| {
      KeptPrefix(f, upTo + 1);
      assert Kept(f, upTo + 1)[..|Kept(f, upTo)|] == Kept(f, upTo);
    }
  }

  // ----- what any number of interrupted runs leave behind -----

  ghost predicate OnlyAttempts(h: seq<Entry>, f: File) {
    forall e :: e in h ==> e.Ran? && e.name == f.name
  }

  /** History with `done` files complete: for each in listing order, any number of attempts cut
      short, then all its statements and its ledger row; then attempts at the next file only. */
  ghost predicate Shape(h: seq<Entry>, files: seq<File>, done: nat)
    requires done <= |files|
    decreases done
  {
    if done == 0 then (if files == [] then h == [] else OnlyAttempts(h, files[0]))
    else exists n: nat :: ShapeAt(h, files, done, n)
  }

  ghost predicate ShapeAt(h: seq<Entry>, files: seq<File>, done: nat, n: nat)
    requires 0 < done <= |files|
    decreases done, 0
  {
    && n + |Block(files[0])| <= |h|
    && OnlyAttempts(h[..n], files[0])
    && h[n..n + |Block(files[0])|] == Block(files[0])
    && Shape(h[n + |Block(files[0])|..], files[1..], done - 1)
  }

  ghost predicate DistinctVersions(files: seq<File>) {
    Distinct(Versions(files))
  }

  /** A database without a ledger, or one whose ledger rows are the first files' versions in order
      and whose history has the shape above. */
  ghost predicate Inv(db: Db, files: seq<File>, done: nat) {
    done <= |files| &&
    match db.ledger
    case None => done == 0
    case Some(versions) => versions == Versions(files[..done]) && Shape(db.history, files, done)
  }

  lemma WorkIsAttempt(f: File, upTo: nat)
    requires upTo <= |f.statements|
    ensures OnlyAttempts(Kept(f, upTo), f)
  {}

  lemma SlicesStay(h: seq<Entry>, more: seq<Entry>, a: nat, b: nat)
    requires a <= b <= |h|
    ensures (h + more)[..a] == h[..a] && (h + more)[a..b] == h[a..b] && (h + more)[b..] == h[b..] + more
  {}

  lemma {:induction false} MoreAttempts(h: seq<Entry>, files: seq<File>, done: nat, more: seq<Entry>)
    requires done < |files| && Shape(h, files, done) && OnlyAttempts(more, files[done])
    ensures Shape(h + more, files, done)
    decreases done
  {
    if done > 0 {
      var n: nat :| ShapeAt(h, files, done, n);
      var m := n + |Block(files[0])|;
      MoreAttempts(h[m..], files[1..], done - 1, more);
      SlicesStay(h, more, n, m);
      assert ShapeAt(h + more, files, done, n);
    }
  }

  lemma {:induction false} OneMoreDone(h: seq<Entry>, files: seq<File>, done: nat)
    requires done < |files| && Shape(h, files, done)
    ensures Shape(h + Block(files[done]), files, done + 1)
    decreases done
  {
    var h' := h + Block(files[done]);
    if done == 0 {
      assert h'[..|h|] == h && h'[|h|..|h| + |Block(files[0])|] == Block(files[0]);
      assert h'[|h| + |Block(files[0])|..] == [];
      assert ShapeAt(h', files, 1, |h|);
    } else {
      var n: nat :| ShapeAt(h, files, done, n);
      var m := n + |Block(files[0])|;
      OneMoreDone(h[m..], files[1..], done - 1);
      SlicesStay(h, Block(files[done]), n, m);
      assert ShapeAt(h', files, done + 1, n);
    }
  }

  /** The rest of the listing from `i`, when the first `k` files were applied at the start. */
  lemma {:induction false} FilesKeepInv(db: Db, files: seq<File>, i: nat, k: nat, budget: nat) returns (done: nat)
    requires DistinctVersions(files) && i <= |files| && k <= |files|
    requires db.ledger.Some? && Inv(db, files, Max(i, k))
    ensures var r := RunFiles(db, files[i..], SetOf(Versions(files[..k])), budget);
            Max(i, k) <= done && Inv(r.db, files, done) && r.db.ledger.Some? && (r.finished ==> done == |files|)
    decreases |files| - i
  {
    var applied := SetOf(Versions(files[..k]));
    if i == |files| {
      done := |files|;
    } else {
      var f := files[i];
      assert files[i..][0] == f && files[i..][1..] == files[i + 1..];
      AppliedIsFirst(files, k, i);
      if i < k {
        done := FilesKeepInv(db, files, i + 1, k, budget);
      } else if budget <= |Work(f)| {
        WorkIsAttempt(f, |f.statements|);
        MoreAttempts(db.history, files, i, Work(f)[..budget]);
        done := i;
      } else {
        OneMoreDone(db.history, files, i);
        assert Versions(files[..i + 1]) == Versions(files[..i]) + [f.version];
        var next := db.(history := db.history + Block(f), ledger := Some(db.ledger.value + [f.version]));
        done := FilesKeepInv(next, files, i + 1, k, budget - |Block(f)|);
      }
    }
  }

  lemma AppliedIsFirst(files: seq<File>, k: nat, i: nat)
    requires DistinctVersions(files) && k <= |files| && i < |files|
    ensures files[i].version in SetOf(Versions(files[..k])) <==> i < k
  {
    var all, first := Versions(files), Versions(files[..k]);
    assert forall j :: 0 <= j < k ==> first[j] == all[j];
    if i < k {
      assert first[i] == files[i].version;
    } else {
      forall j | 0 <= j < |first| ensures first[j] != all[i] {}
    }
  }

  /** Distinct versions: over any number of runs, each stopped anywhere, the ledger and the
      history keep the invariant, no completed file is lost, and a run that finishes has
      completed and recorded every file. */
  lemma {:induction false} RunsSurviveInterruption(db: Db, files: seq<File>, budgets: seq<nat>) returns (done: nat)
    requires DistinctVersions(files) && db.ledger.None?
    ensures Inv(Runs(db, files, budgets).db, files, done)
    ensures Runs(db, files, budgets).finished ==>
              done == |files| && Runs(db, files, budgets).db.ledger == Some(Versions(files))
  {
    if budgets == [] {
      done := 0;
    } else {
      var k := RunsSurviveInterruption(db, files, budgets[..|budgets| - 1]);
      var before, budget := Runs(db, files, budgets[..|budgets| - 1]).db, budgets[|budgets| - 1];
      assert files[0..] == files;
      if before.ledger.Some? {
        done := FilesKeepInv(before, files, 0, k, budget);
      } else if budget <= |before.tables| {
        done := 0;
      } else {
        assert Versions(files[..0]) == [] && SetOf(Versions(files[..0])) == {};
        done := FilesKeepInv(Db([], Some([]), []), files, 0, 0, budget - |before.tables| - 1);
      }
      assert files[..|files|] == files;
    }
  }

  ghost predicate Ascending(versions: seq<int>) {
    forall i, j :: 0 <= i < j < |versions| ==> versions[i] < versions[j]
  }

  /** Pairwise different versions stay so in any order. */
  lemma {:induction false} InsertDistinct(f: File, files: seq<File>, le: Order<File>)
    requires DistinctVersions(files) && forall g :: g in files ==> g.version != f.version
    ensures DistinctVersions(Insert(f, files, le))
    ensures forall g :: g in Insert(f, files, le) <==> g == f || g in files
  {
    var inserted := Insert(f, files, le);
    if files == [] || !le(files[0], f) {
      assert inserted == [f] + files;
      forall i, j | 0 <= i < j < |inserted| ensures Versions(inserted)[i] != Versions(inserted)[j] {
        assert inserted[j] == files[j - 1] && files[j - 1] in files;
        if i > 0 {
          assert Versions(files)[i - 1] != Versions(files)[j - 1];
        }
      }
    } else {
      var rest := files[1..];
      assert files == [files[0]] + rest;
      forall i, j | 0 <= i < j < |rest| ensures Versions(rest)[i] != Versions(rest)[j] {
        assert Versions(files)[i + 1] != Versions(files)[j + 1];
      }
      forall g | g in rest ensures g.version != files[0].version {
        var i :| 0 <= i < |rest| && rest[i] == g;
        assert Versions(files)[0] != Versions(files)[i + 1];
      }
      InsertDistinct(f, rest, le);
      var deeper := Insert(f, rest, le);
      assert inserted == [files[0]] + deeper;
      forall i, j | 0 <= i < j < |inserted| ensures Versions(inserted)[i] != Versions(inserted)[j] {
        if i == 0 {
          assert inserted[j] == deeper[j - 1] && deeper[j - 1] in deeper;
        } else {
          assert Versions(deeper)[i - 1] != Versions(deeper)[j - 1];
        }
      }
    }
  }

  lemma {:induction false} SortDistinct(dir: seq<File>, le: Order<File>)
    requires DistinctVersions(dir)
    ensures DistinctVersions(Sort(dir, le))
    ensures forall f :: f in Sort(dir, le) <==> f in dir
  {
    if dir != [] {
      var n := |dir| - 1;
      assert dir == dir[..n] + [dir[n]];
      forall i, j | 0 <= i < j < n ensures Versions(dir[..n])[i] != Versions(dir[..n])[j] {
        assert Versions(dir)[i] != Versions(dir)[j];
      }
      forall f | f in dir[..n] ensures f.version != dir[n].version {
        var i :| 0 <= i < n && dir[..n][i] == f;
        assert Versions(dir)[i] != Versions(dir)[n];
      }
      SortDistinct(dir[..n], le);
      InsertDistinct(dir[n], Sort(dir[..n], le), le);
    }
  }

  lemma ByVersionIsOrder(nameLe: Order<string>)
    requires IsOrder(nameLe)
    ensures IsOrder(ByVersion(nameLe))
  {
    var le := ByVersion(nameLe);
    forall a: File, b: File ensures le(a, b) || le(b, a) {
      assert nameLe(a.name, b.name) || nameLe(b.name, a.name);
    }
    forall a: File, b: File, c: File | le(a, b) && le(b, c) ensures le(a, c) {
      assert nameLe(a.name, b.name) && nameLe(b.name, c.name) ==> nameLe(a.name, c.name);
    }
  }

  /** The listing has the directory's files by version, and those of one version by name. */
  lemma ListingIsOrdered(dir: seq<File>, nameLe: Order<string>)
    requires IsOrder(nameLe)
    ensures var files := Listing(dir, nameLe);
            && multiset(files) == multiset(dir)
            && forall i, j :: 0 <= i < j < |files| ==>
                 files[i].version < files[j].version
                 || (files[i].version == files[j].version && nameLe(files[i].name, files[j].name))
  {
    var files, le := Listing(dir, nameLe), ByVersion(nameLe);
    ByVersionIsOrder(nameLe);
    SortKeeps(dir, le);
    forall i, j | 0 <= i < j < |files|
      ensures files[i].version < files[j].version
              || (files[i].version == files[j].version && nameLe(files[i].name, files[j].name))
    {
      assert le(files[i], files[j]);
    }
  }

  lemma RunEmptiesFirst(db: Db, files: seq<File>, i: nat, applied: set<int>, budget: nat)
    requires db.ledger.Some? && i <= |files|
    ensures var r := RunFiles(db, files[i..], applied, budget).db; r.ledger.Some? && r.tables == db.tables
    decreases |files| - i
  {
    if i < |files| {
      var f := files[i];
      assert files[i..][0] == f && files[i..][1..] == files[i + 1..];
      if f.version in applied {
        RunEmptiesFirst(db, files, i + 1, applied, budget);
      } else if budget > |Work(f)| {
        var done := db.(history := db.history + Block(f), ledger := Some(db.ledger.value + [f.version]));
        RunEmptiesFirst(done, files, i + 1, applied, budget - |Block(f)|);
      }
    }
  }

  /** The tables are gone with the ledger there; without it, the first `gone` of them. */
  ghost predicate Emptying(start: Db, db: Db, gone: nat) {
    if db.ledger.Some? then db.tables == []
    else gone <= |start.tables| && db.tables == start.tables[gone..] && db.history == start.history
  }

  lemma RunKeepsEmptying(start: Db, db: Db, files: seq<File>, gone: nat, budget: nat) returns (more: nat)
    requires Emptying(start, db, gone)
    ensures Emptying(start, Run(db, files, budget).db, more)
    ensures Run(db, files, budget).finished ==> Run(db, files, budget).db.ledger.Some?
  {
    more := gone;
    assert files[0..] == files;
    if db.ledger.Some? {
      RunEmptiesFirst(db, files, 0, SetOf(db.ledger.value), budget);
    } else if budget <= |db.tables| {
      more := gone + budget;
      assert db.tables[budget..] == start.tables[more..];
    } else {
      RunEmptiesFirst(Db([], Some([]), []), files, 0, {}, budget - |db.tables| - 1);
    }
  }

  /** A database without a ledger gets one only once its tables are gone, and until then loses them one
      by one and nothing else lands on it; a run that finishes leaves one. */
  lemma {:induction false} LedgerComesAfterTables(db: Db, files: seq<File>, budgets: seq<nat>) returns (gone: nat)
    requires db.ledger.None?
    ensures Emptying(db, Runs(db, files, budgets).db, gone)
    ensures Runs(db, files, budgets).finished ==> Runs(db, files, budgets).db.ledger.Some?
  {
    gone := 0;
    if budgets != [] {
      var n := |budgets| - 1;
      gone := LedgerComesAfterTables(db, files, budgets[..n]);
      gone := RunKeepsEmptying(db, Runs(db, files, budgets[..n]).db, files, gone, budgets[n]);
    }
  }

  /** The listing is that of the directory, in ascending version order when versions are distinct. */
  lemma ListingAscends(dir: seq<File>, nameLe: Order<string>)
    requires IsOrder(nameLe) && DistinctVersions(dir)
    ensures var files := Listing(dir, nameLe);
            DistinctVersions(files) && Ascending(Versions(files)) && forall f :: f in files <==> f in dir
  {
    var files, le := Listing(dir, nameLe), ByVersion(nameLe);
    ByVersionIsOrder(nameLe);
    SortKeeps(dir, le);
    SortDistinct(dir, le);
    forall i, j | 0 <= i < j < |files| ensures Versions(files)[i] < Versions(files)[j] {
      assert le(files[i], files[j]);
      assert Versions(files)[i] != Versions(files)[j];
    }
  }

  /** Over any number of runs of a directory with distinct versions, each stopped anywhere: the
      ledger holds the versions of the first files in ascending order and the history their blocks
      in that order, and a run that finishes has recorded every version of the directory. */
  lemma RunsCompleteInVersionOrder(db: Db, dir: seq<File>, nameLe: Order<string>, budgets: seq<nat>) returns (done: nat)
    requires IsOrder(nameLe) && DistinctVersions(dir) && db.ledger.None?
    ensures var files, r := Listing(dir, nameLe), Runs(db, Listing(dir, nameLe), budgets);
            && Inv(r.db, files, done)
            && (r.db.ledger.Some? ==> Ascending(r.db.ledger.value))
            && (r.finished ==>
                  r.db.ledger.Some? && forall f :: f in dir ==> f.version in r.db.ledger.value)
  {
    var files := Listing(dir, nameLe);
    ListingAscends(dir, nameLe);
    done := RunsSurviveInterruption(db, files, budgets);
    var r := Runs(db, files, budgets);
    assert forall i :: 0 <= i < done ==> Versions(files[..done])[i] == Versions(files)[i];
    if r.finished {
      forall f | f in dir ensures f.version in Versions(files) {
        var i :| 0 <= i < |files| && files[i] == f;
        assert Versions(files)[i] == f.version;
      }
    }
  }

  /** A file listed after position `i`. */
  ghost predicate LaterFile(name: string, files: seq<File>, i: int) {
    exists b :: i < b < |files| && 0 <= b && name == files[b].name
  }

  lemma LaterShift(name: string, files: seq<File>, i: int)
    requires files != [] && LaterFile(name, files[1..], i - 1)
    ensures LaterFile(name, files, i)
  {
    var b :| i - 1 < b < |files[1..]| && 0 <= b && name == files[1..][b].name;
    assert files[b + 1] == files[1..][b];
  }

  /** From position `at` on the history holds the statements of the file at the positions `kept`, in
      order: all those that are not left out, and no other. Then comes the file's ledger row. */
  ghost predicate LandsWhole(h: seq<Entry>, at: nat, f: File, kept: seq<nat>) {
    && (forall i, j :: 0 <= i < j < |kept| ==> kept[i] < kept[j])
    && (forall j :: 0 <= j < |f.statements| ==> (j in kept <==> !f.statements[j].skip))
    && at + |kept| < |h|
    && (forall k :: 0 <= k < |kept| ==> kept[k] < |f.statements| && h[at + k] == Ran(f.name, f.statements[kept[k]].text))
    && h[at + |kept|] == Recorded(f.name, f.version)
  }

  /** What a file has to land: its statements that are not left out, each once, in order. */
  lemma {:induction false} KeptExactly(f: File, upTo: nat) returns (kept: seq<nat>)
    requires upTo <= |f.statements|
    ensures |kept| == |Kept(f, upTo)|
    ensures forall i, j :: 0 <= i < j < |kept| ==> kept[i] < kept[j]
    ensures forall j :: 0 <= j < upTo ==> (j in kept <==> !f.statements[j].skip)
    ensures forall k :: 0 <= k < |kept| ==> kept[k] < upTo && Kept(f, upTo)[k] == Ran(f.name, f.statements[kept[k]].text)
  {
    kept := [];
    if upTo > 0 {
      kept := KeptExactly(f, upTo - 1);
      if !f.statements[upTo - 1].skip {
        kept := kept + [upTo - 1];
      }
    }
  }

  lemma WorkExactly(f: File)
    ensures forall e :: e in Work(f) <==>
              exists j :: 0 <= j < |f.statements| && !f.statements[j].skip && e == Ran(f.name, f.statements[j].text)
  {
    var kept := KeptExactly(f, |f.statements|);
    forall e | e in Work(f)
      ensures exists j :: 0 <= j < |f.statements| && !f.statements[j].skip && e == Ran(f.name, f.statements[j].text)
    {
      var k :| 0 <= k < |Work(f)| && Work(f)[k] == e;
      assert kept[k] in kept;
    }
    forall j | 0 <= j < |f.statements| && !f.statements[j].skip ensures Ran(f.name, f.statements[j].text) in Work(f) {
      var k :| 0 <= k < |kept| && kept[k] == j;
      assert Work(f)[k] == Ran(f.name, f.statements[j].text);
    }
  }

  /** Reading the shape: right before a recorded file's row landed its statements, all that are not
      left out and no other, in order; and after the row comes only what belongs to later files. */
  lemma RecordedMeansLanded(h: seq<Entry>, files: seq<File>, done: nat, i: nat) returns (at: nat, kept: seq<nat>)
    requires i < done <= |files| && Shape(h, files, done)
    ensures LandsWhole(h, at, files[i], kept)
    ensures forall p :: at + |kept| < p < |h| ==> LaterFile(h[p].name, files, i)
  {
    var f := files[i];
    at := BlockLanded(h, files, done, i);
    kept := KeptExactly(f, |f.statements|);
    assert forall k :: 0 <= k < |Block(f)| ==> h[at + k] == Block(f)[k];
  }

  lemma {:induction false} BlockLanded(h: seq<Entry>, files: seq<File>, done: nat, i: nat) returns (at: nat)
    requires i < done <= |files| && Shape(h, files, done)
    ensures at + |Block(files[i])| <= |h| && h[at..at + |Block(files[i])|] == Block(files[i])
    ensures forall p :: at + |Block(files[i])| <= p < |h| ==> LaterFile(h[p].name, files, i)
    decreases done
  {
    var n: nat :| ShapeAt(h, files, done, n);
    var m := n + |Block(files[0])|;
    if i == 0 {
      at := n;
      EntriesOfFiles(h[m..], files[1..], done - 1);
      forall p | m <= p < |h| ensures LaterFile(h[p].name, files, 0) {
        assert h[m..][p - m] == h[p];
        LaterShift(h[p].name, files, 0);
      }
    } else {
      assert files[1..][i - 1] == files[i];
      var sub := BlockLanded(h[m..], files[1..], done - 1, i - 1);
      at := m + sub;
      var end := |Block(files[i])|;
      assert h[at..at + end] == h[m..][sub..sub + end];
      forall p | at + end <= p < |h| ensures LaterFile(h[p].name, files, i) {
        assert h[m..][p - m] == h[p];
        LaterShift(h[p].name, files, i);
      }
    }
  }

  lemma {:induction false} EntriesOfFiles(h: seq<Entry>, files: seq<File>, done: nat)
    requires done <= |files| && Shape(h, files, done)
    ensures forall p :: 0 <= p < |h| ==> LaterFile(h[p].name, files, -1)
    decreases done
  {
    if done == 0 {
      forall p | 0 <= p < |h| ensures LaterFile(h[p].name, files, -1) {
        assert h[p] in h;
        assert h[p].name == files[0].name;
      }
    } else {
      var n: nat :| ShapeAt(h, files, done, n);
      var m := n + |Block(files[0])|;
      EntriesOfFiles(h[m..], files[1..], done - 1);
      forall p | 0 <= p < |h| ensures LaterFile(h[p].name, files, -1) {
        if p < n {
          assert h[..n][p] in h[..n];
          assert h[p].name == files[0].name;
        } else if p < m {
          BlockNames(files[0]);
          assert h[n..m][p - n] in Block(files[0]);
          assert h[p].name == files[0].name;
        } else {
          assert h[m..][p - m] == h[p];
          LaterShift(h[p].name, files, -1);
        }
      }
    }
  }

  lemma BlockNames(f: File)
    ensures forall e :: e in Block(f) ==> e.name == f.name
  {
    WorkIsAttempt(f, |f.statements|);
  }

  // ----- versions that repeat -----

  /** Every statement of the file landed. */
  ghost predicate Landed(h: seq<Entry>, f: File) {
    forall j :: 0 <= j < |f.statements| && !f.statements[j].skip ==> Ran(f.name, f.statements[j].text) in h
  }

  lemma LandedIsWork(h: seq<Entry>, f: File)
    ensures Landed(h, f) <==> forall e :: e in Work(f) ==> e in h
  {
    WorkExactly(f);
  }

  /** Whatever the interruptions, a run that finishes has landed every file. */
  ghost predicate SafeListing(db: Db, files: seq<File>) {
    forall budgets, i :: 0 <= i < |files| && Runs(db, files, budgets).finished ==>
      Landed(Runs(db, files, budgets).db.history, files[i])
  }

  /** The commands that complete the first `n` files of a listing none of which is applied. */
  function BudgetFor(files: seq<File>, n: nat): nat
    requires n <= |files|
  {
    if n == 0 then 0 else |Block(files[0])| + BudgetFor(files[1..], n - 1)
  }

  ghost predicate NamedIn(h: seq<Entry>, files: seq<File>) {
    forall e :: e in h ==> LaterFile(e.name, files, -1)
  }

  /** A run cut off right after the first `n` files has recorded and run just those. */
  lemma {:induction false} CutAfter(db: Db, files: seq<File>, n: nat)
    requires db.ledger.Some? && n < |files|
    ensures var r := RunFiles(db, files, {}, BudgetFor(files, n)).db;
            && r.ledger == Some(db.ledger.value + Versions(files[..n]))
            && exists more :: r.history == db.history + more && NamedIn(more, files[..n])
    decreases n
  {
    var r := RunFiles(db, files, {}, BudgetFor(files, n)).db;
    if n == 0 {
      assert Work(files[0])[..0] == [];
      assert r.history == db.history + [] && NamedIn([], files[..0]);
      assert db.ledger.value + Versions(files[..0]) == db.ledger.value;
    } else {
      var f := files[0];
      var done := db.(history := db.history + Block(f), ledger := Some(db.ledger.value + [f.version]));
      CutAfter(done, files[1..], n - 1);
      var rest :| r.history == done.history + rest && NamedIn(rest, files[1..][..n - 1]);
      assert files[..n] == [f] + files[1..][..n - 1];
      assert Versions(files[..n]) == [f.version] + Versions(files[1..][..n - 1]);
      assert r.history == db.history + (Block(f) + rest);
      assert db.ledger.value + Versions(files[..n])
          == db.ledger.value + [f.version] + Versions(files[1..][..n - 1]);
      NamedWithFirst(rest, files, n);
    }
  }

  lemma NamedWithFirst(rest: seq<Entry>, files: seq<File>, n: nat)
    requires 0 < n <= |files| && NamedIn(rest, files[1..][..n - 1])
    ensures NamedIn(Block(files[0]) + rest, files[..n])
  {
    BlockNames(files[0]);
    forall e | e in Block(files[0]) + rest ensures LaterFile(e.name, files[..n], -1) {
      if e in Block(files[0]) {
        assert e.name == files[..n][0].name;
      } else {
        var b :| -1 < b < n - 1 && 0 <= b && e.name == files[1..][..n - 1][b].name;
        assert files[..n][b + 1].name == e.name;
      }
    }
  }

  /** With enough budget a run finishes, and it lands nothing of a file it skips. */
  lemma {:induction false} RunToEnd(db: Db, files: seq<File>, applied: set<int>, e: Entry) returns (budget: nat)
    requires db.ledger.Some? && e !in db.history
    requires forall i :: 0 <= i < |files| && files[i].version !in applied ==> files[i].name != e.name
    ensures var r := RunFiles(db, files, applied, budget); r.finished && e !in r.db.history
    decreases |files|
  {
    if files == [] {
      budget := 0;
    } else {
      var f := files[0];
      assert forall i :: 0 <= i < |files[1..]| ==> files[1..][i] == files[i + 1];
      if f.version in applied {
        budget := RunToEnd(db, files[1..], applied, e);
      } else {
        BlockNames(f);
        var done := db.(history := db.history + Block(f), ledger := Some(db.ledger.value + [f.version]));
        var rest := RunToEnd(done, files[1..], applied, e);
        budget := rest + |Block(f)|;
      }
    }
  }

  lemma SkipsAfterCut(db: Db, files: seq<File>, a: nat, b: nat, e: Entry) returns (first: nat, second: nat)
    requires db.ledger.None? && a < b < |files| && files[a].version == files[b].version
    requires forall i, j :: 0 <= i < j < |files| ==> files[i].name != files[j].name
    requires e in Work(files[b])
    ensures var r := Run(Run(db, files, first).db, files, second); r.finished && e !in r.db.history
  {
    var emptied, n := Db([], Some([]), []), a + 1;
    first := BudgetFor(files, n) + |db.tables| + 1;
    var cut := RunFiles(emptied, files, {}, BudgetFor(files, n)).db;
    CutHasNot(emptied, files, n, e, files[b].name);
    assert e.name == files[b].name by {
      WorkIsAttempt(files[b], |files[b].statements|);
    }
    assert Versions(files[..n])[a] == files[b].version;
    second := RunToEnd(cut, files, SetOf(cut.ledger.value), e);
  }

  /** Two files with one version: a run cut off after the first of them records the version, and
      the next run finishes without the second. */
  lemma RepeatedVersionIsSkipped(db: Db, files: seq<File>, a: nat, b: nat, e: Entry)
    requires db.ledger.None? && a < b < |files| && files[a].version == files[b].version
    requires forall i, j :: 0 <= i < j < |files| ==> files[i].name != files[j].name
    requires exists j :: 0 <= j < |files[b].statements| && !files[b].statements[j].skip
                         && e == Ran(files[b].name, files[b].statements[j].text)
    ensures exists budgets ::
              var r := Runs(db, files, budgets); r.finished && e !in r.db.history
  {
    WorkExactly(files[b]);
    var first, second := SkipsAfterCut(db, files, a, b, e);
    TwoRuns(db, files, first, second);
  }

  lemma TwoRuns(db: Db, files: seq<File>, first: nat, second: nat)
    ensures Runs(db, files, [first, second]) == Run(Run(db, files, first).db, files, second)
  {
    assert [first, second][..1] == [first] && [first][..0] == [];
    assert Runs(db, files, []) == Outcome(db, false);
    assert Runs(db, files, [first]) == Run(db, files, first);
  }

  /** A run cut off after the first files landed nothing of a file named otherwise. */
  lemma CutHasNot(db: Db, files: seq<File>, n: nat, e: Entry, name: string)
    requires db.ledger == Some([]) && db.history == [] && n < |files|
    requires forall i :: 0 <= i < n ==> files[i].name != name
    ensures var r := RunFiles(db, files, {}, BudgetFor(files, n)).db;
            r.ledger == Some(Versions(files[..n])) && (e.name == name ==> e !in r.history)
  {
    CutAfter(db, files, n);
    assert [] + Versions(files[..n]) == Versions(files[..n]);
    forall k | 0 <= k < n ensures files[..n][k].name != name {}
    assert !LaterFile(name, files[..n], -1);
  }

  predicate AllLeftOut(f: File) {
    forall j :: 0 <= j < |f.statements| ==> f.statements[j].skip
  }

  /** A file listed behind another of its version has nothing to land. */
  ghost predicate RepeatsAreEmpty(files: seq<File>) {
    forall i, j :: 0 <= i < j < |files| && files[i].version == files[j].version ==> AllLeftOut(files[j])
  }

  /** Interrupted runs are safe for a listing exactly when no file that has statements to land is
      listed behind another of its version. */
  lemma SafeExactly(db: Db, files: seq<File>)
    requires db.ledger.None?
    requires forall i, j :: 0 <= i < j < |files| ==> files[i].name != files[j].name
    ensures SafeListing(db, files) <==> RepeatsAreEmpty(files)
  {
    if RepeatsAreEmpty(files) {
      forall budgets, i | 0 <= i < |files| && Runs(db, files, budgets).finished
        ensures Landed(Runs(db, files, budgets).db.history, files[i])
      {
        RunsLandRecorded(db, files, budgets);
      }
    } else {
      var a, b :| 0 <= a < b < |files| && files[a].version == files[b].version && !AllLeftOut(files[b]);
      var j :| 0 <= j < |files[b].statements| && !files[b].statements[j].skip;
      var e := Ran(files[b].name, files[b].statements[j].text);
      RepeatedVersionIsSkipped(db, files, a, b, e);
      var budgets :| Runs(db, files, budgets).finished && e !in Runs(db, files, budgets).db.history;
      assert !Landed(Runs(db, files, budgets).db.history, files[b]);
    }
  }

  /** Every file whose version is in the ledger has landed. */
  ghost predicate RecordedLanded(db: Db, files: seq<File>) {
    db.ledger.Some? ==>
      forall i :: 0 <= i < |files| && files[i].version in db.ledger.value ==> Landed(db.history, files[i])
  }

  lemma FileLands(db: Db, files: seq<File>, i: nat)
    requires RepeatsAreEmpty(files) && i < |files| && db.ledger.Some? && RecordedLanded(db, files)
    requires forall k :: 0 <= k < i ==> Landed(db.history, files[k])
    ensures var f := files[i];
            var next := db.(history := db.history + Block(f), ledger := Some(db.ledger.value + [f.version]));
            RecordedLanded(next, files) && forall k :: 0 <= k <= i ==> Landed(next.history, files[k])
  {
    var f := files[i];
    var h := db.history + Block(f);
    LandedIsWork(h, f);
    forall k | 0 <= k < |files| && (k < i || files[k].version in db.ledger.value + [f.version])
      ensures Landed(h, files[k])
    {
      if k > i && files[k].version == f.version {
        assert AllLeftOut(files[k]);
      }
    }
  }

  lemma {:induction false} FilesLandRecorded(db: Db, files: seq<File>, i: nat, applied: set<int>, budget: nat)
    requires RepeatsAreEmpty(files) && i <= |files| && db.ledger.Some? && RecordedLanded(db, files)
    requires forall v :: v in applied ==> v in db.ledger.value
    requires forall k :: 0 <= k < i ==> Landed(db.history, files[k])
    ensures var r := RunFiles(db, files[i..], applied, budget);
            && r.db.ledger.Some? && RecordedLanded(r.db, files)
            && (r.finished ==> forall k :: 0 <= k < |files| ==> Landed(r.db.history, files[k]))
    decreases |files| - i
  {
    if i < |files| {
      var f := files[i];
      assert files[i..][0] == f && files[i..][1..] == files[i + 1..];
      if f.version in applied {
        FilesLandRecorded(db, files, i + 1, applied, budget);
      } else if budget > |Work(f)| {
        var next := db.(history := db.history + Block(f), ledger := Some(db.ledger.value + [f.version]));
        FileLands(db, files, i);
        FilesLandRecorded(next, files, i + 1, applied, budget - |Block(f)|);
      }
    }
  }

  lemma {:induction false} RunsLandRecorded(db: Db, files: seq<File>, budgets: seq<nat>)
    requires RepeatsAreEmpty(files) && db.ledger.None?
    ensures var r := Runs(db, files, budgets);
            && RecordedLanded(r.db, files)
            && (r.finished ==> forall k :: 0 <= k < |files| ==> Landed(r.db.history, files[k]))
  {
    if budgets != [] {
      RunsLandRecorded(db, files, budgets[..|budgets| - 1]);
      var before, budget := Runs(db, files, budgets[..|budgets| - 1]).db, budgets[|budgets| - 1];
      assert files[0..] == files;
      if before.ledger.Some? {
        FilesLandRecorded(before, files, 0, SetOf(before.ledger.value), budget);
      } else if budget > |before.tables| {
        FilesLandRecorded(Db([], Some([]), []), files, 0, {}, budget - |before.tables| - 1);
      }
    }
  }
}
