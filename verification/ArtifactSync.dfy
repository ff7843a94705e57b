/**
 * The artifact spool as a transition system. `emit` parks a blob and appends its record in two
 * steps; a sync reads the spool, uploads, reads the spool again, unlinks blobs one by one, and
 * writes the uploaded-id set and the watermark. Emits fall between any two of those, any read,
 * upload, unlink or write may fail, and a run may die anywhere.
 */
module ArtifactSync {
  import opened Common
  import opened Spool
  import opened ArtifactUpload

  /** The files under the spool directory. `uploadedIds` is the persisted id set; `sent` and
      `dropped` record every upload the server accepted and every record given up as dead. */
  datatype Disk = Disk(spool: seq<byte>, watermark: nat, uploadedIds: set<string>, blobs: set<string>,
                       sent: seq<string>, dropped: set<string>)

  /** What a sync read: the records from offset `from` up to offset `consumed`. */
  datatype Chunk = Chunk(window: seq<ArtifactLine>, from: nat, consumed: nat)

  /** Where the running sync is. `todo` holds the blobs it has still to unlink. */
  datatype Phase =
    | Idle
    | Planned(c: Chunk)
    | Passed(c: Chunk, p: Pass)
    | Cleaning(c: Chunk, p: Pass, todo: set<string>)
    | Writing(c: Chunk, p: Pass)

  datatype State = State(disk: Disk, phase: Phase)

  /** The first three are an emit's: it parks its blob unless one of these bytes is there, appends
      its record, and, when the append failed, takes back the blob it parked. The rest are a sync's,
      in its order; each says whether its read, unlink or write succeeded. */
  datatype Step =
    | Park(sha: string)
    | Append(line: seq<byte>)
    | Undo(sha: string)
    | Plan(watermarkRead: bool, spoolRead: bool)
    | Upload(env: Env)
    | ReadLate(spoolRead: bool)
    | Unlink(sha: string, succeeded: bool)
    | WriteIds(written: bool)
    | Commit(written: bool)
    | Die
    | DieUploading(env: Env, count: nat)

  const EMPTY := State(Disk([], 0, {}, {}, [], {}), Idle)

  function Whole(parse: Parser<Artifact>, spool: seq<byte>): seq<ArtifactLine> {
    Lines(parse, spool, 0)
  }

  /** What a read from `from` gives; a failed one gives nothing and echoes the offset. */
  function ReadChunk(parse: Parser<Artifact>, spool: seq<byte>, from: nat, spoolRead: bool): Chunk {
    if spoolRead then Chunk(Lines(parse, spool, Clamp(from, |spool|)), from, |spool|) else Chunk([], from, from)
  }

  /** The shas of the records appended past the plan's read. */
  function LateShas(parse: Parser<Artifact>, spool: seq<byte>, c: Chunk): set<string> {
    Shas(Lines(parse, spool, Clamp(c.consumed, |spool|)))
  }

  /** The blobs the clean-up sets out to unlink, given how the late read went. */
  function Doomed(parse: Parser<Artifact>, spool: seq<byte>, c: Chunk, p: Pass, spoolRead: bool): set<string> {
    Removable(p, if spoolRead then LateShas(parse, spool, c) else {})
  }

  function AfterUpload(d: Disk, c: Chunk, p: Pass): State {
    State(d.(sent := d.sent + p.sent, dropped := d.dropped + p.dropped),
          if c.window == [] then Writing(c, p) else Passed(c, p))
  }

  function Apply(parse: Parser<Artifact>, s: State, step: Step): State {
    var d := s.disk;
    match step
    case Park(sha) => s.(disk := d.(blobs := d.blobs + {sha}))
    case Append(line) => s.(disk := d.(spool := d.spool + line + [NEWLINE]))
    case Undo(sha) => s.(disk := d.(blobs := d.blobs - {sha}))
    case Plan(watermarkRead, spoolRead) =>
      s.(phase := Planned(ReadChunk(parse, d.spool, if watermarkRead then d.watermark else 0, spoolRead)))
    case Upload(env) =>
      if !s.phase.Planned? then s
      else
        var c := s.phase.c;
        AfterUpload(d, c, PassOver(c.window, env, c.consumed))
    case ReadLate(spoolRead) =>
      if !s.phase.Passed? then s
      else
        s.(phase := Cleaning(s.phase.c, s.phase.p, Doomed(parse, d.spool, s.phase.c, s.phase.p, spoolRead)))
    case Unlink(sha, succeeded) =>
      if !s.phase.Cleaning? || sha !in s.phase.todo then s
      else
        State(if succeeded then d.(blobs := d.blobs - {sha}) else d, s.phase.(todo := s.phase.todo - {sha}))
    case WriteIds(written) =>
      if !s.phase.Cleaning? then s
      else
        State(if written then d.(uploadedIds := Kept(s.phase.c.window, s.phase.p)) else d, Writing(s.phase.c, s.phase.p))
    case Commit(written) =>
      if !s.phase.Writing? then s
      else
        State(if written then d.(watermark := s.phase.p.offset) else d, Idle)
    case Die => s.(phase := Idle)
    case DieUploading(env, count) =>
      if !s.phase.Planned? || count > |s.phase.c.window| then s
      else
        var c := s.phase.c;
        State(d.(sent := d.sent + PassOver(c.window[..count], env, c.consumed).sent), Idle)
  }

  /** A pass reads the persisted ids, or none when that read fails. */
  predicate ReadsIds(d: Disk, env: Env) {
    env.previouslyUploaded == d.uploadedIds || env.previouslyUploaded == {}
  }

  /** What can happen: an emit writes one whole line with a new id, one sync runs at a time and
      takes its steps in order. Nothing is asked of the blobs. */
  ghost predicate Allowed(parse: Parser<Artifact>, s: State, step: Step) {
    match step
    case Park(_) => true
    case Append(line) =>
      && NEWLINE !in line
      && (parse(line).Some? ==> forall l :: l in Whole(parse, s.disk.spool) ==> l.record.id != parse(line).value.id)
    case Undo(_) => true
    case Plan(_, _) => s.phase.Idle?
    case Upload(env) => s.phase.Planned? && ReadsIds(s.disk, env)
    case ReadLate(_) => s.phase.Passed?
    case Unlink(sha, _) => s.phase.Cleaning? && sha in s.phase.todo
    case WriteIds(_) => s.phase.Cleaning? && s.phase.todo == {}
    case Commit(_) => s.phase.Writing?
    case Die => true
    case DieUploading(env, count) => s.phase.Planned? && ReadsIds(s.disk, env) && count <= |s.phase.c.window|
  }

  function Run(parse: Parser<Artifact>, s: State, steps: seq<Step>): State
    decreases |steps|
  {
    if steps == [] then s else Run(parse, Apply(parse, s, steps[0]), steps[1..])
  }

  ghost predicate RunAllowed(parse: Parser<Artifact>, s: State, steps: seq<Step>)
    decreases |steps|
  {
    steps == [] || (Allowed(parse, s, steps[0]) && RunAllowed(parse, Apply(parse, s, steps[0]), steps[1..]))
  }

  // ----- what every step keeps -----

  ghost predicate Done(d: Disk, id: string) {
    id in d.sent || id in d.dropped
  }

  ghost predicate UniqueIds(lines: seq<ArtifactLine>) {
    forall l, m :: l in lines && m in lines && l.record.id == m.record.id ==> l == m
  }

  ghost predicate OnRecord(id: string, lines: seq<ArtifactLine>) {
    exists l :: l in lines && l.record.id == id
  }

  /** A chunk holds exactly the lines from its start up to a line boundary. */
  ghost predicate ChunkFits(spool: seq<byte>, lines: seq<ArtifactLine>, watermark: nat, c: Chunk) {
    && c.from <= c.consumed && c.from <= watermark && Boundary(spool, c.consumed)
    && Ordered(c.window)
    && forall l :: l in c.window <==> l in lines && c.from <= l.offset < c.consumed
  }

  ghost predicate PassFits(d: Disk, c: Chunk, p: Pass) {
    && p.offset <= c.consumed && Boundary(d.spool, p.offset)
    && forall id :: id in p.uploadedIds ==> id in d.sent
  }

  ghost predicate PhaseFits(d: Disk, lines: seq<ArtifactLine>, phase: Phase) {
    && (!phase.Idle? ==> ChunkFits(d.spool, lines, d.watermark, phase.c))
    && (!phase.Idle? && !phase.Planned? ==> PassFits(d, phase.c, phase.p))
  }

  ghost predicate DiskFits(d: Disk, lines: seq<ArtifactLine>) {
    && Terminated(d.spool)
    && Boundary(d.spool, d.watermark)
    && UniqueIds(lines)
    && (forall id :: id in d.uploadedIds ==> id in d.sent)
    && forall id :: Done(d, id) ==> OnRecord(id, lines)
  }

  /** The files and the running sync belong together. */
  ghost predicate Sound(parse: Parser<Artifact>, s: State) {
    var lines := Whole(parse, s.disk.spool);
    DiskFits(s.disk, lines) && PhaseFits(s.disk, lines, s.phase)
  }

  lemma LinesAreOrdered(parse: Parser<Artifact>, spool: seq<byte>, w: nat)
    requires Boundary(spool, w)
    ensures Ordered(Lines(parse, spool, w))
    ensures forall l :: l in Lines(parse, spool, w) ==> Boundary(spool, l.offset) && w <= l.offset < |spool|
  {
    OffsetsIncrease(parse, spool, w);
  }

  lemma StaysOnLine(before: seq<byte>, spool: seq<byte>, pos: nat)
    requires before <= spool && Boundary(before, pos)
    ensures Boundary(spool, pos)
  {}

  lemma WindowIsDistinct(lines: seq<ArtifactLine>, spool: seq<byte>, watermark: nat, c: Chunk)
    requires UniqueIds(lines) && ChunkFits(spool, lines, watermark, c)
    ensures DistinctIds(c.window)
  {
    forall i, j | 0 <= i < j < |c.window| ensures c.window[i].record.id != c.window[j].record.id {
      assert c.window[i] in c.window && c.window[j] in c.window;
    }
  }

  lemma OneMoreLine(d: Disk, lines: seq<ArtifactLine>, added: seq<ArtifactLine>, phase: Phase)
    requires DiskFits(d, lines) && PhaseFits(d, lines, phase)
    requires |added| <= 1
    requires added != [] ==> added[0].offset == |d.spool| && forall l :: l in lines ==> l.record.id != added[0].record.id
    ensures UniqueIds(lines + added) && forall id :: Done(d, id) ==> OnRecord(id, lines + added)
    ensures !phase.Idle? ==> forall l :: l in phase.c.window <==> l in lines + added && phase.c.from <= l.offset < phase.c.consumed
  {
    assert forall l :: l in lines + added <==> l in lines || l in added;
    forall id | Done(d, id) ensures OnRecord(id, lines + added) {
      var l :| l in lines && l.record.id == id;
      assert l in lines + added;
    }
  }

  lemma AppendedLines(parse: Parser<Artifact>, s: State, line: seq<byte>)
    requires Terminated(s.disk.spool) && NEWLINE !in line
    ensures var d := Apply(parse, s, Append(line)).disk;
            && Whole(parse, d.spool) == Whole(parse, s.disk.spool) + Parsed(parse, line, |s.disk.spool|)
            && Terminated(d.spool) && s.disk.spool <= d.spool
  {
    AppendLine(parse, s.disk.spool, line, 0);
  }

  lemma AppendKeepsSound(parse: Parser<Artifact>, s: State, line: seq<byte>)
    requires Sound(parse, s) && Allowed(parse, s, Append(line))
    ensures Sound(parse, Apply(parse, s, Append(line)))
  {
    var d, d' := s.disk, Apply(parse, s, Append(line)).disk;
    AppendedLines(parse, s, line);
    OneMoreLine(d, Whole(parse, d.spool), Parsed(parse, line, |d.spool|), s.phase);
    StaysOnLine(d.spool, d'.spool, d.watermark);
    if !s.phase.Idle? {
      StaysOnLine(d.spool, d'.spool, s.phase.c.consumed);
      if !s.phase.Planned? {
        StaysOnLine(d.spool, d'.spool, s.phase.p.offset);
      }
    }
  }

  lemma PlanKeepsSound(parse: Parser<Artifact>, s: State, watermarkRead: bool, spoolRead: bool)
    requires Sound(parse, s) && Allowed(parse, s, Plan(watermarkRead, spoolRead))
    ensures Sound(parse, Apply(parse, s, Plan(watermarkRead, spoolRead)))
  {
    var from := if watermarkRead then s.disk.watermark else 0;
    LinesAreOrdered(parse, s.disk.spool, from);
    LinesAreOrdered(parse, s.disk.spool, 0);
    WindowOfWhole(parse, s.disk.spool, from);
  }

  /** What the pass sends or remembers is on record, and it stops on a line start of its chunk. */
  lemma PassFitsChunk(d: Disk, lines: seq<ArtifactLine>, c: Chunk, part: seq<ArtifactLine>, env: Env)
    requires DiskFits(d, lines) && ChunkFits(d.spool, lines, d.watermark, c)
    requires forall l :: l in lines ==> Boundary(d.spool, l.offset)
    requires part <= c.window && ReadsIds(d, env)
    ensures var p := PassOver(part, env, c.consumed);
            && (forall id :: id in p.sent || id in p.dropped ==> OnRecord(id, lines))
            && c.from <= p.offset <= c.consumed && Boundary(d.spool, p.offset)
            && (forall id :: id in p.uploadedIds ==> id in d.sent + p.sent)
            && Distinct(p.sent)
            && (forall id :: id in p.sent ==> exists l :: l in part && l.record.id == id && id !in env.previouslyUploaded)
  {
    WindowIsDistinct(lines, d.spool, d.watermark, c);
    SendsFreshIds(part, env, c.consumed);
    EveryRecordHasAFate(part, env, c.consumed);
    DropsOnlyTheDead(part, env, c.consumed);
    assert forall l :: l in part ==> l in c.window;
  }

  lemma UploadKeepsSound(parse: Parser<Artifact>, s: State, env: Env)
    requires Sound(parse, s) && Allowed(parse, s, Upload(env))
    ensures Sound(parse, Apply(parse, s, Upload(env)))
  {
    LinesAreOrdered(parse, s.disk.spool, 0);
    PassFitsChunk(s.disk, Whole(parse, s.disk.spool), s.phase.c, s.phase.c.window, env);
  }

  lemma DieUploadingKeepsSound(parse: Parser<Artifact>, s: State, env: Env, count: nat)
    requires Sound(parse, s) && Allowed(parse, s, DieUploading(env, count))
    ensures Sound(parse, Apply(parse, s, DieUploading(env, count)))
  {
    LinesAreOrdered(parse, s.disk.spool, 0);
    PassFitsChunk(s.disk, Whole(parse, s.disk.spool), s.phase.c, s.phase.c.window[..count], env);
  }

  lemma StepKeepsSound(parse: Parser<Artifact>, s: State, step: Step)
    requires Sound(parse, s) && Allowed(parse, s, step)
    ensures Sound(parse, Apply(parse, s, step))
  {
    match step {
      case Append(line) => AppendKeepsSound(parse, s, line);
      case Plan(watermarkRead, spoolRead) => PlanKeepsSound(parse, s, watermarkRead, spoolRead);
      case Upload(env) => UploadKeepsSound(parse, s, env);
      case DieUploading(env, count) => DieUploadingKeepsSound(parse, s, env, count);
      case _ =>
    }
  }

  lemma NewIsWaiting(d: Disk, lines: seq<ArtifactLine>, l: ArtifactLine)
    requires (forall id :: Done(d, id) ==> OnRecord(id, lines)) && forall m :: m in lines ==> m.record.id != l.record.id
    ensures !Done(d, l.record.id)
  {}

  /** A blob comes only by being parked, and goes only when an emit takes it back or the clean-up unlinks
      it with success. */
  lemma BlobsChangeExactly(parse: Parser<Artifact>, s: State, step: Step, sha: string)
    ensures var before, after := s.disk.blobs, Apply(parse, s, step).disk.blobs;
            && (sha in after && sha !in before <==> step == Park(sha) && sha !in before)
            && (sha in before && sha !in after <==>
                  sha in before && (step == Undo(sha) || (step == Unlink(sha, true) && s.phase.Cleaning? && sha in s.phase.todo)))
  {}

  /** Over every run the files stay sound: the watermark is on a line boundary and what is
      remembered was sent. */
  lemma {:induction false} RunsStaySound(parse: Parser<Artifact>, s: State, steps: seq<Step>)
    requires Sound(parse, s) && RunAllowed(parse, s, steps)
    ensures Sound(parse, Run(parse, s, steps))
    decreases |steps|
  {
    if steps != [] {
      StepKeepsSound(parse, s, steps[0]);
      RunsStaySound(parse, Apply(parse, s, steps[0]), steps[1..]);
    }
  }

  lemma {:induction false} RunSplits(parse: Parser<Artifact>, s: State, first: seq<Step>, rest: seq<Step>)
    ensures Run(parse, s, first + rest) == Run(parse, Run(parse, s, first), rest)
    decreases |first|
  {
    if first == [] {
      assert first + rest == rest;
    } else {
      assert (first + rest)[0] == first[0] && (first + rest)[1..] == first[1..] + rest;
      RunSplits(parse, Apply(parse, s, first[0]), first[1..], rest);
    }
  }
}
