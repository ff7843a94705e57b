/** `emit` writes what the tree compiles to, `emit --check` compares it with the disk. */
module EmitCheck {
  import opened Common
  import opened Spool
  import opened Unicode

  /** The files under the repository root. */
  type Disk = map<string, seq<byte>>

  /** `content` is text; it is written as UTF-8 and compared as the text read back. */
  datatype EmitFile = EmitFile(path: string, content: seq<CodeUnit>)

  datatype EmitCopy = EmitCopy(fromPath: string, toPath: string)

  datatype EmitResult = EmitResult(files: seq<EmitFile>, copies: seq<EmitCopy>)

  datatype DriftKind = Missing | Content | Orphaned

  datatype DriftEntry = DriftEntry(kind: DriftKind, path: string)

  function WriteFiles(d: Disk, files: seq<EmitFile>): Disk {
    if files == [] then d
    else
      var n := |files| - 1;
      WriteFiles(d, files[..n])[files[n].path := EncodeText(files[n].content)]
  }

  /** A copy reads its source as it is by then; the sources were found in the tree. */
  function CopyFiles(d: Disk, copies: seq<EmitCopy>): (r: Disk)
    requires forall c :: c in copies ==> c.fromPath in d
    ensures d.Keys <= r.Keys
  {
    if copies == [] then d
    else
      var n := |copies| - 1;
      var before := CopyFiles(d, copies[..n]);
      assert copies[n] in copies;
      before[copies[n].toPath := before[copies[n].fromPath]]
  }

  ghost predicate SourcesExist(d: Disk, r: EmitResult) {
    forall c :: c in r.copies ==> c.fromPath in d
  }

  lemma {:induction false} FilesStay(d: Disk, files: seq<EmitFile>)
    ensures d.Keys <= WriteFiles(d, files).Keys
  {
    if files != [] {
      FilesStay(d, files[..|files| - 1]);
    }
  }

  /** The disk after an emit. */
  ghost function Emitted(d: Disk, r: EmitResult): Disk
    requires SourcesExist(d, r)
  {
    FilesStay(d, r.files);
    CopyFiles(WriteFiles(d, r.files), r.copies)
  }

  function CompareFile(d: Disk, f: EmitFile): Option<DriftEntry> {
    if f.path !in d then Some(DriftEntry(Missing, f.path))
    else if DecodeText(d[f.path]) != f.content then Some(DriftEntry(Content, f.path))
    else None
  }

  function CompareCopy(d: Disk, c: EmitCopy): Option<DriftEntry>
    requires c.fromPath in d
  {
    if c.toPath !in d then Some(DriftEntry(Missing, c.toPath))
    else if d[c.toPath] != d[c.fromPath] then Some(DriftEntry(Content, c.toPath))
    else None
  }

  lemma CopyStep(d: Disk, copies: seq<EmitCopy>, i: nat)
    requires i < |copies| && forall c :: c in copies ==> c.fromPath in d
    ensures (forall c :: c in copies[..i] ==> c.fromPath in d) && (forall c :: c in copies[..i + 1] ==> c.fromPath in d)
    ensures copies[i].fromPath in CopyFiles(d, copies[..i])
    ensures var before := CopyFiles(d, copies[..i]);
            CopyFiles(d, copies[..i + 1]) == before[copies[i].toPath := before[copies[i].fromPath]]
  {
    assert copies[i] in copies && copies[..i + 1][..i] == copies[..i];
  }

  class Repository {
    var disk: Disk

    constructor (disk: Disk)
      ensures this.disk == disk
    {
      this.disk := disk;
    }

    method WriteAll(files: seq<EmitFile>) returns (paths: seq<string>)
      modifies this
      ensures disk == WriteFiles(old(disk), files)
      ensures |paths| == |files| && forall i :: 0 <= i < |files| ==> paths[i] == files[i].path
    {
      paths := [];
      for i := 0 to |files|
        invariant disk == WriteFiles(old(disk), files[..i])
        invariant |paths| == i && forall j :: 0 <= j < i ==> paths[j] == files[j].path
      {
        assert files[..i + 1][..i] == files[..i];
        disk := disk[files[i].path := EncodeText(files[i].content)];
        paths := paths + [files[i].path];
      }
      assert files[..|files|] == files;
    }

    method CopyAll(copies: seq<EmitCopy>) returns (paths: seq<string>)
      requires forall c :: c in copies ==> c.fromPath in disk
      modifies this
      ensures disk == CopyFiles(old(disk), copies)
      ensures |paths| == |copies| && forall i :: 0 <= i < |copies| ==> paths[i] == copies[i].toPath
    {
      paths := [];
      for i := 0 to |copies|
        invariant disk == CopyFiles(old(disk), copies[..i])
        invariant |paths| == i && forall j :: 0 <= j < i ==> paths[j] == copies[j].toPath
      {
        CopyStep(old(disk), copies, i);
        disk := disk[copies[i].toPath := disk[copies[i].fromPath]];
        paths := paths + [copies[i].toPath];
      }
      assert copies[..|copies|] == copies;
    }

    method WriteOutputs(r: EmitResult) returns (files: seq<string>, copies: seq<string>)
      requires SourcesExist(disk, r)
      modifies this
      ensures disk == Emitted(old(disk), r)
      ensures |files| == |r.files| && forall i :: 0 <= i < |files| ==> files[i] == r.files[i].path
      ensures |copies| == |r.copies| && forall i :: 0 <= i < |copies| ==> copies[i] == r.copies[i].toPath
    {
      files := WriteAll(r.files);
      FilesStay(old(disk), r.files);
      copies := CopyAll(r.copies);
    }

    /** Missing and content drift of every output and the orphans, sorted by `le`, the comparison by
        path and then kind; exit 1 on any of them, or when the tree has errors.
        `orphans` are the header-carrying files the walk found without a source. */
    method RunCheck(r: EmitResult, hasErrors: bool, orphans: seq<string>, le: Order<DriftEntry>)
      returns (drift: seq<DriftEntry>, exitCode: int)
      requires SourcesExist(disk, r) && IsOrder(le)
      ensures hasErrors ==> drift == [] && exitCode == 1
      ensures !hasErrors ==> forall e :: e in drift <==>
                || (exists f :: f in r.files && CompareFile(disk, f) == Some(e))
                || (exists c :: c in r.copies && c.fromPath in disk && CompareCopy(disk, c) == Some(e))
                || (e.kind == Orphaned && e.path in orphans)
      ensures InOrder(drift, le)
      ensures !hasErrors ==> exitCode == if drift == [] then 0 else 1
    {
      drift := [];
      if hasErrors {
        return [], 1;
      }
      for i := 0 to |r.files|
        invariant forall e :: e in drift <==> exists j :: 0 <= j < i && CompareFile(disk, r.files[j]) == Some(e)
      {
        var d := CompareFile(disk, r.files[i]);
        if d.Some? {
          drift := drift + [d.value];
        }
      }
      ghost var ofFiles := drift;
      for i := 0 to |r.copies|
        invariant forall e :: e in drift <==>
                    (e in ofFiles || exists j :: 0 <= j < i && CompareCopy(disk, r.copies[j]) == Some(e))
      {
        assert r.copies[i] in r.copies;
        var d := CompareCopy(disk, r.copies[i]);
        if d.Some? {
          drift := drift + [d.value];
        }
      }
      ghost var ofCopies := drift;
      for i := 0 to |orphans|
        invariant forall e :: e in drift <==> e in ofCopies || (e.kind == Orphaned && e.path in orphans[..i])
      {
        assert orphans[..i + 1] == orphans[..i] + [orphans[i]];
        drift := drift + [DriftEntry(Orphaned, orphans[i])];
      }
      assert orphans[..|orphans|] == orphans;
      SortKeeps(drift, le);
      drift := Sort(drift, le);
      exitCode := if |drift| > 0 then 1 else 0;
    }
  }

  // ----- check is exact for emit -----

  /** Destinations pairwise different, and none the source of a copy. */
  ghost predicate Separate(r: EmitResult) {
    && (forall i, j :: 0 <= i < j < |r.files| ==> r.files[i].path != r.files[j].path)
    && (forall i, j :: 0 <= i < j < |r.copies| ==> r.copies[i].toPath != r.copies[j].toPath)
    && (forall f, c :: f in r.files && c in r.copies ==> f.path != c.toPath && f.path != c.fromPath)
    && (forall c, e :: c in r.copies && e in r.copies ==> c.toPath != e.fromPath)
  }

  ghost predicate Drifts(d: Disk, r: EmitResult, e: DriftEntry)
    requires SourcesExist(d, r)
  {
    || (exists f :: f in r.files && CompareFile(d, f) == Some(e))
    || (exists c :: c in r.copies && c.fromPath in d && CompareCopy(d, c) == Some(e))
  }

  function At(d: Disk, p: string): Option<seq<byte>> {
    if p in d then Some(d[p]) else None
  }

  lemma {:induction false} FileStaysAway(d: Disk, files: seq<EmitFile>, p: string)
    requires forall i :: 0 <= i < |files| ==> files[i].path != p
    ensures At(WriteFiles(d, files), p) == At(d, p)
  {
    if files != [] {
      FileStaysAway(d, files[..|files| - 1], p);
    }
  }

  lemma {:induction false} FileWrittenAt(d: Disk, files: seq<EmitFile>, k: nat)
    requires k < |files| && forall i, j :: 0 <= i < j < |files| ==> files[i].path != files[j].path
    ensures At(WriteFiles(d, files), files[k].path) == Some(EncodeText(files[k].content))
  {
    var n := |files| - 1;
    if k < n {
      FileWrittenAt(d, files[..n], k);
    }
  }

  lemma WrittenAt(d: Disk, files: seq<EmitFile>)
    requires forall i, j :: 0 <= i < j < |files| ==> files[i].path != files[j].path
    ensures var w := WriteFiles(d, files);
            && (forall f :: f in files ==> At(w, f.path) == Some(EncodeText(f.content)))
            && (forall p :: (forall f :: f in files ==> f.path != p) ==> At(w, p) == At(d, p))
  {
    var w := WriteFiles(d, files);
    forall f | f in files ensures At(w, f.path) == Some(EncodeText(f.content)) {
      var k :| 0 <= k < |files| && files[k] == f;
      FileWrittenAt(d, files, k);
    }
    forall p | forall f :: f in files ==> f.path != p ensures At(w, p) == At(d, p) {
      FileStaysAway(d, files, p);
    }
  }

  lemma {:induction false} NotCopiedAt(d: Disk, copies: seq<EmitCopy>, p: string)
    requires forall c :: c in copies ==> c.fromPath in d && c.toPath != p
    ensures At(CopyFiles(d, copies), p) == At(d, p)
  {
    if copies != [] {
      var n := |copies| - 1;
      assert copies[n] in copies && forall c :: c in copies[..n] ==> c in copies;
      NotCopiedAt(d, copies[..n], p);
    }
  }

  /** Every source is there, no two copies share a destination, and no copy overwrites a source. */
  ghost predicate FreeCopies(d: Disk, copies: seq<EmitCopy>) {
    && (forall c :: c in copies ==> c.fromPath in d)
    && (forall i, j :: 0 <= i < j < |copies| ==> copies[i].toPath != copies[j].toPath)
    && (forall c, e :: c in copies && e in copies ==> c.toPath != e.fromPath)
  }

  lemma {:induction false} CopiedAt(d: Disk, copies: seq<EmitCopy>, k: nat)
    requires FreeCopies(d, copies) && k < |copies|
    ensures At(CopyFiles(d, copies), copies[k].toPath) == Some(d[copies[k].fromPath])
  {
    var n := |copies| - 1;
    if k < n {
      CopiedAt(d, copies[..n], k);
    } else {
      assert copies[n] in copies && forall c :: c in copies[..n] ==> c in copies;
      NotCopiedAt(d, copies[..n], copies[n].fromPath);
    }
  }

  /** What an emit leaves at each path. */
  lemma EmittedAt(d: Disk, r: EmitResult)
    requires SourcesExist(d, r) && Separate(r)
    ensures var e := Emitted(d, r);
            && (forall f :: f in r.files ==> At(e, f.path) == Some(EncodeText(f.content)))
            && (forall c :: c in r.copies ==> At(e, c.toPath) == Some(d[c.fromPath]) && At(e, c.fromPath) == Some(d[c.fromPath]))
            && (forall p :: (forall f :: f in r.files ==> f.path != p) && (forall c :: c in r.copies ==> c.toPath != p) ==>
                  At(e, p) == At(d, p))
  {
    FilesStay(d, r.files);
    WrittenAt(d, r.files);
    var w := WriteFiles(d, r.files);
    forall c | c in r.copies
      ensures At(Emitted(d, r), c.toPath) == Some(d[c.fromPath])
    {
      var k :| 0 <= k < |r.copies| && r.copies[k] == c;
      CopiedAt(w, r.copies, k);
      assert At(w, c.fromPath) == At(d, c.fromPath);
    }
    forall p | forall c :: c in r.copies ==> c.toPath != p
      ensures At(Emitted(d, r), p) == At(w, p)
    {
      NotCopiedAt(w, r.copies, p);
    }
  }

  /** The file reads as what would be written, but its bytes are not what would be written. */
  ghost predicate Masked(d: Disk, f: EmitFile) {
    f.path in d && DecodeText(d[f.path]) == f.content && d[f.path] != EncodeText(f.content)
  }

  /** Some output of this path is one whose change a check cannot see. */
  ghost predicate MaskedAt(d: Disk, r: EmitResult, p: string) {
    exists f :: f in r.files && f.path == p && Masked(d, f)
  }

  /** Some output of this path cannot be written as it is. */
  ghost predicate UnwritableAt(r: EmitResult, p: string) {
    exists f :: f in r.files && f.path == p && !NoLoneSurrogates(f.content)
  }

  /** A change can be masked only for content that holds a replacement character, and for any such
      content there is a disk on which it is. */
  lemma MaskedExactly(f: EmitFile)
    ensures (exists d: Disk :: Masked(d, f)) <==> NoLoneSurrogates(f.content) && 0xFFFD in f.content
  {
    forall d: Disk | Masked(d, f) ensures NoLoneSurrogates(f.content) && 0xFFFD in f.content {
      ReadTextIsWellFormed(d[f.path]);
      if 0xFFFD !in f.content {
        ReadsOnlyItself(f.content, d[f.path]);
      }
    }
    if NoLoneSurrogates(f.content) && 0xFFFD in f.content {
      var bytes := OtherBytesReadTheSame(f.content);
      var d: Disk := map[f.path := bytes];
      assert Masked(d, f);
    }
  }

  /** The paths reported missing are those an emit would create; those reported drifted are the
      existing ones it would change except where the change is masked, and those that hold text
      which cannot be written. */
  lemma CheckIsExact(d: Disk, r: EmitResult, p: string)
    requires SourcesExist(d, r) && Separate(r)
    ensures Drifts(d, r, DriftEntry(Missing, p)) <==> At(Emitted(d, r), p) != At(d, p) && p !in d
    ensures Drifts(d, r, DriftEntry(Content, p)) <==>
              p in d && ((At(Emitted(d, r), p) != At(d, p) && !MaskedAt(d, r, p)) || UnwritableAt(r, p))
  {
    if exists f :: f in r.files && f.path == p {
      var f :| f in r.files && f.path == p;
      FileCheckIsExact(d, r, f);
    } else if exists c :: c in r.copies && c.toPath == p {
      var c :| c in r.copies && c.toPath == p;
      CopyCheckIsExact(d, r, c);
    } else {
      EmittedAt(d, r);
      NoOutput(d, r, p);
    }
  }

  lemma CompareReadsAt(d: Disk, f: EmitFile)
    ensures CompareFile(d, f).None? <==>
              f.path in d && NoLoneSurrogates(f.content) && (At(d, f.path) == Some(EncodeText(f.content)) || Masked(d, f))
  {
    ReadsBackExactly(f.content);
    if f.path in d {
      ReadTextIsWellFormed(d[f.path]);
    }
  }

  lemma FileCheckIsExact(d: Disk, r: EmitResult, f: EmitFile)
    requires SourcesExist(d, r) && Separate(r) && f in r.files
    ensures Drifts(d, r, DriftEntry(Missing, f.path)) <==> At(Emitted(d, r), f.path) != At(d, f.path) && f.path !in d
    ensures Drifts(d, r, DriftEntry(Content, f.path)) <==>
              f.path in d
              && ((At(Emitted(d, r), f.path) != At(d, f.path) && !MaskedAt(d, r, f.path)) || UnwritableAt(r, f.path))
  {
    CompareReadsAt(d, f);
    OnlyWriter(d, r, f);
    assert MaskedAt(d, r, f.path) <==> Masked(d, f);
    assert UnwritableAt(r, f.path) <==> !NoLoneSurrogates(f.content);
    assert At(Emitted(d, r), f.path) == Some(EncodeText(f.content)) by {
      EmittedAt(d, r);
    }
    assert Masked(d, f) ==> At(d, f.path) != Some(EncodeText(f.content));
  }

  lemma CopyCheckIsExact(d: Disk, r: EmitResult, c: EmitCopy)
    requires SourcesExist(d, r) && Separate(r) && c in r.copies
    ensures Drifts(d, r, DriftEntry(Missing, c.toPath)) <==>
              At(Emitted(d, r), c.toPath) != At(d, c.toPath) && c.toPath !in d
    ensures Drifts(d, r, DriftEntry(Content, c.toPath)) <==>
              c.toPath in d
              && ((At(Emitted(d, r), c.toPath) != At(d, c.toPath) && !MaskedAt(d, r, c.toPath)) || UnwritableAt(r, c.toPath))
  {
    assert At(Emitted(d, r), c.toPath) == Some(d[c.fromPath]) by {
      EmittedAt(d, r);
    }
  }

  lemma NoOutput(d: Disk, r: EmitResult, p: string)
    requires SourcesExist(d, r)
    requires (forall f :: f in r.files ==> f.path != p) && (forall c :: c in r.copies ==> c.toPath != p)
    ensures forall e: DriftEntry :: e.path == p ==> !Drifts(d, r, e)
  {}

  lemma OnlyWriter(d: Disk, r: EmitResult, f: EmitFile)
    requires SourcesExist(d, r) && Separate(r) && f in r.files
    ensures forall e :: Drifts(d, r, e) && e.path == f.path ==> CompareFile(d, f) == Some(e)
    ensures forall e :: CompareFile(d, f) == Some(e) ==> Drifts(d, r, e)
  {}

  /** A second emit changes nothing, and a check right after an emit reports no output exactly when
      every file's text can be written as it is. */
  lemma EmitSettles(d: Disk, r: EmitResult)
    requires SourcesExist(d, r) && Separate(r)
    ensures var e := Emitted(d, r);
            && SourcesExist(e, r)
            && Emitted(e, r) == e
            && ((forall x :: !Drifts(e, r, x)) <==> forall f :: f in r.files ==> NoLoneSurrogates(f.content))
  {
    EmittedAt(d, r);
    var e := Emitted(d, r);
    forall c | c in r.copies ensures c.fromPath in e {
      assert At(e, c.fromPath) == Some(d[c.fromPath]);
    }
    EmittedAt(e, r);
    var again := Emitted(e, r);
    forall p ensures At(again, p) == At(e, p) {
      if exists f :: f in r.files && f.path == p {
      } else if exists c :: c in r.copies && c.toPath == p {
      }
    }
    SameEverywhere(again, e);
    CleanExactlyWhenUpToDate(e, r);
    forall f | f in r.files ensures !Masked(e, f) {
      assert At(e, f.path) == Some(EncodeText(f.content));
    }
  }

  lemma SameEverywhere(a: Disk, b: Disk)
    requires forall p :: At(a, p) == At(b, p)
    ensures a == b
  {
    assert forall p :: p in a <==> At(a, p).Some?;
    assert forall p :: p in b <==> At(b, p).Some?;
    assert forall p :: p in a ==> Some(a[p]) == At(a, p) == At(b, p) == Some(b[p]);
  }

  /** No output is reported exactly when every path an emit would change is masked and every file's
      text can be written; so a clean check means an up-to-date tree exactly when nothing is masked. */
  lemma CleanExactlyWhenUpToDate(d: Disk, r: EmitResult)
    requires SourcesExist(d, r) && Separate(r)
    ensures (forall x :: !Drifts(d, r, x)) <==>
              && (forall p :: At(Emitted(d, r), p) != At(d, p) ==> MaskedAt(d, r, p))
              && (forall f :: f in r.files ==> NoLoneSurrogates(f.content))
    ensures (forall x :: !Drifts(d, r, x)) ==>
              (Emitted(d, r) == d <==> forall f :: f in r.files ==> !Masked(d, f))
  {
    EmittedAt(d, r);
    forall p ensures QuietAt(d, r, p) <==> (At(Emitted(d, r), p) != At(d, p) ==> MaskedAt(d, r, p)) && !UnwritableAt(r, p) {
      QuietExactly(d, r, p);
    }
    QuietEverywhere(d, r);
    forall f | f in r.files ensures !NoLoneSurrogates(f.content) ==> UnwritableAt(r, f.path) {}
    if forall x :: !Drifts(d, r, x) {
      if forall f :: f in r.files ==> !Masked(d, f) {
        SameEverywhere(Emitted(d, r), d);
      } else {
        var f :| f in r.files && Masked(d, f);
        assert At(Emitted(d, r), f.path) == Some(EncodeText(f.content)) != At(d, f.path);
      }
    }
  }

  ghost predicate QuietAt(d: Disk, r: EmitResult, p: string)
    requires SourcesExist(d, r)
  {
    !Drifts(d, r, DriftEntry(Missing, p)) && !Drifts(d, r, DriftEntry(Content, p))
  }

  lemma QuietEverywhere(d: Disk, r: EmitResult)
    requires SourcesExist(d, r)
    ensures (forall x :: !Drifts(d, r, x)) <==> forall p :: QuietAt(d, r, p)
  {
    forall x | Drifts(d, r, x) ensures !QuietAt(d, r, x.path) {
      assert x == DriftEntry(Missing, x.path) || x == DriftEntry(Content, x.path);
    }
  }

  lemma QuietExactly(d: Disk, r: EmitResult, p: string)
    requires SourcesExist(d, r) && Separate(r)
    ensures QuietAt(d, r, p) <==> (At(Emitted(d, r), p) != At(d, p) ==> MaskedAt(d, r, p)) && !UnwritableAt(r, p)
  {
    CheckIsExact(d, r, p);
    EmittedAt(d, r);
    if MaskedAt(d, r, p) {
      var f :| f in r.files && f.path == p && Masked(d, f);
      ReadTextIsWellFormed(d[p]);
    }
  }

  /** The input: the generated text is one replacement character and the file holds one stray byte.
      Nothing is reported, and an emit would rewrite the file. */
  lemma StrayByteIsMasked()
    ensures var d: Disk := map["a" := [0xFF]];
            var r := EmitResult([EmitFile("a", [0xFFFD])], []);
            SourcesExist(d, r) && (forall x :: !Drifts(d, r, x)) && Emitted(d, r) != d
  {
    var d: Disk := map["a" := [0xFF]];
    var f := EmitFile("a", [0xFFFD]);
    var r := EmitResult([f], []);
    assert [0xFF as byte][1..] == [] && Decode([0xFF]) == [REPLACEMENT] + Decode([]);
    assert Utf16([REPLACEMENT]) == Utf16Of(REPLACEMENT) + Utf16([REPLACEMENT][1..]);
    assert DecodeText([0xFF]) == [0xFFFD];
    assert ToWellFormed([0xFFFD]) == [REPLACEMENT] + ToWellFormed([0xFFFD as CodeUnit][1..]);
    assert EncodeText([0xFFFD]) == Utf8Of(REPLACEMENT) + Utf8([REPLACEMENT][1..]);
    assert |EncodeText([0xFFFD])| == 3;
    assert forall g :: g in r.files ==> g == f;
    assert Masked(d, f) && f in r.files;
    EmittedAt(d, r);
    forall x ensures !Drifts(d, r, x) {}
    assert At(Emitted(d, r), "a") != At(d, "a");
  }

  // ----- when destinations repeat -----

  /** What an emit writes where, in its order; a copy writes what its source holds. */
  datatype Output = Output(path: string, bytes: seq<byte>)

  function OfFiles(files: seq<EmitFile>): seq<Output> {
    seq(|files|, i requires 0 <= i < |files| => Output(files[i].path, EncodeText(files[i].content)))
  }

  ghost function OfCopies(d: Disk, copies: seq<EmitCopy>): seq<Output>
    requires forall c :: c in copies ==> c.fromPath in d
  {
    seq(|copies|, i requires 0 <= i < |copies| => Output(copies[i].toPath, d[copies[i].fromPath]))
  }

  ghost function Outputs(d: Disk, r: EmitResult): seq<Output>
    requires SourcesExist(d, r)
  {
    OfFiles(r.files) + OfCopies(d, r.copies)
  }

  function ApplyOutputs(d: Disk, outputs: seq<Output>): Disk {
    if outputs == [] then d
    else
      var n := |outputs| - 1;
      ApplyOutputs(d, outputs[..n])[outputs[n].path := outputs[n].bytes]
  }

  /** No output overwrites the source of a copy. */
  ghost predicate SourcesUntouched(r: EmitResult) {
    forall e :: e in r.copies ==>
      (forall f :: f in r.files ==> f.path != e.fromPath) && (forall c :: c in r.copies ==> c.toPath != e.fromPath)
  }

  lemma {:induction false} FilesAreOutputs(d: Disk, files: seq<EmitFile>)
    ensures WriteFiles(d, files) == ApplyOutputs(d, OfFiles(files))
  {
    if files != [] {
      var n := |files| - 1;
      FilesAreOutputs(d, files[..n]);
      assert OfFiles(files)[..n] == OfFiles(files[..n]);
    }
  }

  lemma {:induction false} NotWrittenAt(d: Disk, outputs: seq<Output>, p: string)
    requires forall o :: o in outputs ==> o.path != p
    ensures At(ApplyOutputs(d, outputs), p) == At(d, p)
  {
    if outputs != [] {
      var n := |outputs| - 1;
      assert outputs[n] in outputs && forall o :: o in outputs[..n] ==> o in outputs;
      NotWrittenAt(d, outputs[..n], p);
    }
  }

  lemma {:induction false} WritesSplit(d: Disk, a: seq<Output>, b: seq<Output>)
    ensures ApplyOutputs(d, a + b) == ApplyOutputs(ApplyOutputs(d, a), b)
  {
    if b == [] {
      assert a + b == a;
    } else {
      assert (a + b)[..|a + b| - 1] == a + b[..|b| - 1];
      WritesSplit(d, a, b[..|b| - 1]);
    }
  }

  /** A source holds the same bytes throughout, so the copies write what it held at the start. */
  lemma {:induction false} CopiesAreOutputs(d: Disk, w: Disk, copies: seq<EmitCopy>)
    requires forall c :: c in copies ==> c.fromPath in d && c.fromPath in w && w[c.fromPath] == d[c.fromPath]
    requires forall c, e :: c in copies && e in copies ==> c.toPath != e.fromPath
    ensures CopyFiles(w, copies) == ApplyOutputs(w, OfCopies(d, copies))
  {
    if copies != [] {
      var n := |copies| - 1;
      var c := copies[n];
      assert c in copies && forall e :: e in copies[..n] ==> e in copies;
      CopiesAreOutputs(d, w, copies[..n]);
      NotCopiedAt(w, copies[..n], c.fromPath);
      assert OfCopies(d, copies)[..n] == OfCopies(d, copies[..n]);
    }
  }

  lemma FilesLeaveSources(d: Disk, r: EmitResult)
    requires SourcesExist(d, r) && SourcesUntouched(r)
    ensures forall c :: c in r.copies ==> At(WriteFiles(d, r.files), c.fromPath) == Some(d[c.fromPath])
  {
    FilesAreOutputs(d, r.files);
    forall c | c in r.copies ensures At(WriteFiles(d, r.files), c.fromPath) == Some(d[c.fromPath]) {
      forall o | o in OfFiles(r.files) ensures o.path != c.fromPath {
        var i :| 0 <= i < |r.files| && OfFiles(r.files)[i] == o;
        assert r.files[i] in r.files;
      }
      NotWrittenAt(d, OfFiles(r.files), c.fromPath);
    }
  }

  lemma EmitWritesOutputs(d: Disk, r: EmitResult)
    requires SourcesExist(d, r) && SourcesUntouched(r)
    ensures Emitted(d, r) == ApplyOutputs(d, Outputs(d, r))
  {
    var w := WriteFiles(d, r.files);
    FilesStay(d, r.files);
    FilesAreOutputs(d, r.files);
    FilesLeaveSources(d, r);
    forall c | c in r.copies ensures c.fromPath in w && w[c.fromPath] == d[c.fromPath] {
      assert At(w, c.fromPath) == Some(d[c.fromPath]);
    }
    CopiesAreOutputs(d, w, r.copies);
    WritesSplit(d, OfFiles(r.files), OfCopies(d, r.copies));
  }

  /** The outputs of one path agree: files on their text, copies on their bytes, and what a copy puts
      over a file reads as the file's text. */
  ghost predicate Consistent(d: Disk, r: EmitResult)
    requires SourcesExist(d, r)
  {
    && (forall f :: f in r.files ==> NoLoneSurrogates(f.content))
    && (forall f, g :: f in r.files && g in r.files && f.path == g.path ==> f.content == g.content)
    && (forall f, c :: f in r.files && c in r.copies && f.path == c.toPath ==> DecodeText(d[c.fromPath]) == f.content)
    && (forall c, e :: c in r.copies && e in r.copies && c.toPath == e.toPath ==> d[c.fromPath] == d[e.fromPath])
  }

  /** The output a path ends up with is the last one of that path. */
  lemma {:induction false} LastWriter(d: Disk, outputs: seq<Output>, k: nat) returns (last: nat)
    requires k < |outputs|
    ensures k <= last < |outputs| && outputs[last].path == outputs[k].path
    ensures At(ApplyOutputs(d, outputs), outputs[k].path) == Some(outputs[last].bytes)
  {
    var n := |outputs| - 1;
    if outputs[k].path == outputs[n].path {
      last := n;
    } else {
      last := LastWriter(d, outputs[..n], k);
    }
  }

  /** What stands at the path of an output after an emit: an output of that path, and a copy if there
      is a copy of it. */
  lemma StandsAt(d: Disk, r: EmitResult, k: nat) returns (last: nat)
    requires SourcesExist(d, r) && SourcesUntouched(r) && k < |Outputs(d, r)|
    ensures k <= last < |Outputs(d, r)| && Outputs(d, r)[last].path == Outputs(d, r)[k].path
    ensures At(Emitted(d, r), Outputs(d, r)[k].path) == Some(Outputs(d, r)[last].bytes)
  {
    EmitWritesOutputs(d, r);
    last := LastWriter(d, Outputs(d, r), k);
  }

  lemma SourcesStay(d: Disk, r: EmitResult)
    requires SourcesExist(d, r) && SourcesUntouched(r)
    ensures forall c :: c in r.copies ==> At(Emitted(d, r), c.fromPath) == Some(d[c.fromPath])
  {
    FilesStay(d, r.files);
    FilesLeaveSources(d, r);
    forall c | c in r.copies ensures At(Emitted(d, r), c.fromPath) == Some(d[c.fromPath]) {
      NotCopiedAt(WriteFiles(d, r.files), r.copies, c.fromPath);
    }
  }

  lemma NoDriftExactly(d: Disk, r: EmitResult)
    requires SourcesExist(d, r)
    ensures (forall x :: !Drifts(d, r, x)) <==>
              && (forall i :: 0 <= i < |r.files| ==> CompareFile(d, r.files[i]).None?)
              && (forall j :: 0 <= j < |r.copies| ==> r.copies[j].fromPath in d && CompareCopy(d, r.copies[j]).None?)
  {
    assert forall j :: 0 <= j < |r.copies| ==> r.copies[j] in r.copies;
    if forall x :: !Drifts(d, r, x) {
      forall i | 0 <= i < |r.files| ensures CompareFile(d, r.files[i]).None? {
        assert r.files[i] in r.files;
        assert CompareFile(d, r.files[i]).Some? ==> Drifts(d, r, CompareFile(d, r.files[i]).value);
      }
      forall j | 0 <= j < |r.copies| ensures CompareCopy(d, r.copies[j]).None? {
        assert CompareCopy(d, r.copies[j]).Some? ==> Drifts(d, r, CompareCopy(d, r.copies[j]).value);
      }
    }
  }

  lemma SourcesStillExist(d: Disk, r: EmitResult)
    requires SourcesExist(d, r) && SourcesUntouched(r)
    ensures SourcesExist(Emitted(d, r), r)
    ensures forall c :: c in r.copies ==> Emitted(d, r)[c.fromPath] == d[c.fromPath]
  {
    SourcesStay(d, r);
    forall c | c in r.copies ensures c.fromPath in Emitted(d, r) && Emitted(d, r)[c.fromPath] == d[c.fromPath] {
      assert At(Emitted(d, r), c.fromPath) == Some(d[c.fromPath]);
    }
  }

  lemma FileCleanWhenConsistent(d: Disk, r: EmitResult, i: nat)
    requires SourcesExist(d, r) && SourcesUntouched(r) && Consistent(d, r) && i < |r.files|
    ensures CompareFile(Emitted(d, r), r.files[i]).None?
  {
    var f := r.files[i];
    assert f in r.files;
    var last := StandsAt(d, r, i);
    if last < |r.files| {
      assert r.files[last] in r.files;
      ReadsBackExactly(f.content);
    } else {
      assert r.copies[last - |r.files|] in r.copies;
    }
    assert At(Emitted(d, r), f.path).Some?;
  }

  lemma CopyCleanWhenConsistent(d: Disk, r: EmitResult, j: nat)
    requires SourcesExist(d, r) && SourcesUntouched(r) && Consistent(d, r) && j < |r.copies|
    ensures r.copies[j].fromPath in Emitted(d, r) && CompareCopy(Emitted(d, r), r.copies[j]).None?
  {
    var c := r.copies[j];
    assert c in r.copies;
    SourcesStillExist(d, r);
    var last := StandsAt(d, r, |r.files| + j);
    assert r.copies[last - |r.files|] in r.copies;
    assert At(Emitted(d, r), c.toPath).Some?;
  }

  lemma ConsistentWhenClean(d: Disk, r: EmitResult)
    requires SourcesExist(d, r) && SourcesUntouched(r) && SourcesExist(Emitted(d, r), r)
    requires forall f :: f in r.files ==> CompareFile(Emitted(d, r), f).None?
    requires forall c :: c in r.copies ==> CompareCopy(Emitted(d, r), c).None?
    ensures Consistent(d, r)
  {
    var e := Emitted(d, r);
    SourcesStillExist(d, r);
    forall f | f in r.files ensures f.path in e && DecodeText(e[f.path]) == f.content && NoLoneSurrogates(f.content) {
      ReadTextIsWellFormed(e[f.path]);
    }
    assert forall c :: c in r.copies ==> c.toPath in e && e[c.toPath] == d[c.fromPath];
  }

  /** Where destinations repeat, among files, among copies or between them, a check after an emit is
      clean exactly when the outputs of each path agree and every file's text can be written. */
  lemma CleanExactlyWhenConsistent(d: Disk, r: EmitResult)
    requires SourcesExist(d, r) && SourcesUntouched(r)
    ensures SourcesExist(Emitted(d, r), r)
    ensures (forall x :: !Drifts(Emitted(d, r), r, x)) <==> Consistent(d, r)
  {
    var e := Emitted(d, r);
    SourcesStillExist(d, r);
    NoDriftExactly(e, r);
    if Consistent(d, r) {
      forall i | 0 <= i < |r.files| ensures CompareFile(e, r.files[i]).None? {
        FileCleanWhenConsistent(d, r, i);
      }
      forall j | 0 <= j < |r.copies| ensures r.copies[j].fromPath in e && CompareCopy(e, r.copies[j]).None? {
        CopyCleanWhenConsistent(d, r, j);
      }
    }
    if forall x :: !Drifts(e, r, x) {
      forall f | f in r.files ensures CompareFile(e, f).None? {
        var i :| 0 <= i < |r.files| && r.files[i] == f;
      }
      forall c | c in r.copies ensures CompareCopy(e, c).None? {
        var j :| 0 <= j < |r.copies| && r.copies[j] == c;
      }
      ConsistentWhenClean(d, r);
    }
  }
}
