/**
 * What becomes of each record of an upload pass, told by the server's answer and the record's age, and
 * which blobs the clean-up after it may delete.
 */
module ArtifactFates {
  import opened Common
  import opened Spool
  import opened ArtifactUpload

  /** The pass left the record for the next sync: neither sent nor given up, with its blob and its place. */
  ghost predicate LeftForLater(p: Pass, l: ArtifactLine) {
    && l.record.id !in p.sent && l.record.id !in p.dropped && l.record.id !in p.missing && l.record.id !in p.uploadedIds
    && l.record.sha in p.heldShas && p.offset <= l.offset
  }

  /** A later record of another id changes nothing for one already handled. */
  lemma FateStands(p: Pass, l: ArtifactLine, m: ArtifactLine, env: Env)
    requires l.record.id != m.record.id
    ensures var q, id := Handle(p, m, env), l.record.id;
            && (id in q.sent <==> id in p.sent) && (id in q.dropped <==> id in p.dropped)
            && (id in q.missing <==> id in p.missing) && (id in q.uploadedIds <==> id in p.uploadedIds)
            && (l.record.sha in p.heldShas && p.offset <= l.offset ==> l.record.sha in q.heldShas && q.offset <= l.offset)
  {}

  lemma NoLineNoFate(lines: seq<ArtifactLine>, env: Env, cap: nat)
    ensures var p := PassOver(lines, env, cap);
            forall id :: id in p.sent || id in p.dropped || id in p.missing || id in p.uploadedIds ==>
              exists l :: l in lines && l.record.id == id
  {
    SendsUnremembered(lines, env, cap);
    DropsOnlyTheDead(lines, env, cap);
    MissingAreLines(lines, env, cap);
    UploadedAreLines(lines, env, cap);
  }

  /** What becomes of a record whose upload is tried, before any 401: it is sent when the server
      accepts it; held on a 401; given up on any other status in the 400s but 408 and 429; and else,
      whatever went wrong, held until its time is more than fourteen days back and then given up. */
  lemma {:induction false} AnswerDecides(lines: seq<ArtifactLine>, env: Env, cap: nat, i: nat)
    requires DistinctIds(lines) && i < |lines|
    requires lines[i].record.id !in env.previouslyUploaded && lines[i].record.id in env.found
    requires forall k :: 0 <= k < i ==> !Expires(lines[k].record, env)
    ensures var p, a := PassOver(lines, env, cap), lines[i].record;
            var answer := env.answer(a.id);
            && (a.id in p.sent <==> answer.Accepted?)
            && (a.id in p.dropped <==> RefusedForGood(answer) || (Transient(answer) && PastRetryAge(a, env.nowMs)))
            && (LeftForLater(p, lines[i]) <==> answer == Refused(401) || (Transient(answer) && !PastRetryAge(a, env.nowMs)))
  {
    var n := |lines| - 1;
    DistinctTake(lines);
    if i < n {
      AnswerDecides(lines[..n], env, cap, i);
      assert lines[i] in lines[..n];
      FateStands(PassOver(lines[..n], env, cap), lines[i], lines[n], env);
    } else {
      ExpiresBefore(lines, env, cap, n);
      NoLineNoFate(lines[..n], env, cap);
    }
  }

  /** After a 401 every record is left for the next sync, whatever it is. */
  lemma {:induction false} ExpiryHoldsTheRest(lines: seq<ArtifactLine>, env: Env, cap: nat, k: nat, i: nat)
    requires DistinctIds(lines) && k < i < |lines| && Expires(lines[k].record, env)
    ensures LeftForLater(PassOver(lines, env, cap), lines[i])
  {
    var n := |lines| - 1;
    DistinctTake(lines);
    if i < n {
      ExpiryHoldsTheRest(lines[..n], env, cap, k, i);
      assert lines[i] in lines[..n];
      FateStands(PassOver(lines[..n], env, cap), lines[i], lines[n], env);
    } else {
      ExpiresBefore(lines, env, cap, n);
      NoLineNoFate(lines[..n], env, cap);
    }
  }

  /** Which blobs the clean-up may delete: those of a record that is uploaded or given up, unless a
      record left for later, or one appended since, has the same bytes. */
  lemma RemovableExactly(lines: seq<ArtifactLine>, env: Env, cap: nat, late: set<string>, sha: string)
    requires DistinctIds(lines)
    ensures var p := PassOver(lines, env, cap);
            sha in Removable(p, late) <==>
              && (exists l :: l in lines && l.record.sha == sha && (l.record.id in p.uploadedIds || l.record.id in p.dropped))
              && (forall l :: l in lines && l.record.sha == sha ==>
                    l.record.id in p.uploadedIds || l.record.id in p.dropped || l.record.id in p.missing)
              && sha !in late
  {
    ShasExactly(lines, env, cap, sha);
  }

  lemma {:induction false} ShasExactly(lines: seq<ArtifactLine>, env: Env, cap: nat, sha: string)
    requires DistinctIds(lines)
    ensures var p := PassOver(lines, env, cap);
            && (sha in p.uploadedShas + p.deadShas <==>
                  exists l :: l in lines && l.record.sha == sha && (l.record.id in p.uploadedIds || l.record.id in p.dropped))
            && (sha in p.heldShas <==>
                  exists l :: l in lines && l.record.sha == sha && l.record.id !in p.uploadedIds
                              && l.record.id !in p.dropped && l.record.id !in p.missing)
  {
    if lines != [] {
      var n := |lines| - 1;
      DistinctTake(lines);
      ShasExactly(lines[..n], env, cap, sha);
      NoLineNoFate(lines[..n], env, cap);
      var before := PassOver(lines[..n], env, cap);
      assert forall l :: l in lines[..n] ==> l.record.id != lines[n].record.id;
      ShasStep(before, lines[..n], lines[n], env, sha);
      assert lines == lines[..n] + [lines[n]];
    }
  }

  lemma ShasStep(p: Pass, lines: seq<ArtifactLine>, m: ArtifactLine, env: Env, sha: string)
    requires forall l :: l in lines ==> l.record.id != m.record.id
    requires m.record.id !in p.uploadedIds && m.record.id !in p.dropped && m.record.id !in p.missing
    ensures var q, a := Handle(p, m, env), m.record;
            && (forall l :: l in lines ==>
                  && (l.record.id in q.uploadedIds <==> l.record.id in p.uploadedIds)
                  && (l.record.id in q.dropped <==> l.record.id in p.dropped)
                  && (l.record.id in q.missing <==> l.record.id in p.missing))
            && (sha in q.uploadedShas + q.deadShas <==>
                  sha in p.uploadedShas + p.deadShas || (sha == a.sha && (a.id in q.uploadedIds || a.id in q.dropped)))
            && (sha in q.heldShas <==>
                  sha in p.heldShas || (sha == a.sha && a.id !in q.uploadedIds && a.id !in q.dropped && a.id !in q.missing))
  {}
}
