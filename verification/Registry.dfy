/** Deprecation handling of the model registry: an ordered merge of what upstream reports with what
    models.json already lists. */
module Registry {
  import opened Common

  /** The `deprecationDate` field: left out, null, or a date. */
  datatype Deprecation = Absent | Null | Date(date: string)

  datatype ModelId = ModelId(name: string)

  /** `body` stands for the fields the merge does not look at. */
  datatype ModelEntry = ModelEntry(body: string, deprecation: Deprecation)

  /** An insertion-ordered map. */
  datatype Models = Models(ids: seq<ModelId>, entries: map<ModelId, ModelEntry>) {
    ghost predicate Valid() {
      Distinct(ids) && forall id :: id in ids <==> id in entries
    }
  }

  datatype Delta = Delta(newlyDeprecated: seq<ModelId>, resurrected: seq<ModelId>)

  predicate Dated(e: ModelEntry) {
    e.deprecation.Date? && e.deprecation.date != ""
  }

  predicate Resurrects(existing: ModelEntry, upstream: ModelEntry) {
    Dated(existing) && !Dated(upstream)
  }

  function Carried(existing: ModelEntry, upstream: ModelEntry): ModelEntry {
    if Resurrects(existing, upstream) then upstream.(deprecation := Null) else upstream
  }

  function Rescued(existing: ModelEntry, today: string): ModelEntry {
    if Dated(existing) then existing else existing.(deprecation := Date(today))
  }

  /** Newly deprecated: listed before, gone upstream, not deprecated yet. */
  predicate WentAway(upstream: Models, existing: Models, id: ModelId) {
    id in existing.entries && id !in upstream.entries && !Dated(existing.entries[id])
  }

  /** Back upstream after a deprecation. */
  predicate CameBack(upstream: Models, existing: Models, id: ModelId) {
    id in existing.entries && id in upstream.entries && Resurrects(existing.entries[id], upstream.entries[id])
  }

  function Gone(ids: seq<ModelId>, upstream: Models, existing: Models): seq<ModelId> {
    if ids == [] then []
    else
      var n := |ids| - 1;
      Gone(ids[..n], upstream, existing) + if WentAway(upstream, existing, ids[n]) then [ids[n]] else []
  }

  function Back(ids: seq<ModelId>, upstream: Models, existing: Models): seq<ModelId> {
    if ids == [] then []
    else
      var n := |ids| - 1;
      Back(ids[..n], upstream, existing) + if CameBack(upstream, existing, ids[n]) then [ids[n]] else []
  }

  /** The ids not listed before, in merge order. */
  function New(ids: seq<ModelId>, existing: Models): seq<ModelId> {
    if ids == [] then []
    else
      var n := |ids| - 1;
      New(ids[..n], existing) + if ids[n] in existing.entries then [] else [ids[n]]
  }

  /** What the registry lists for an id after a run. */
  function EntryAfter(upstream: Models, existing: Models, today: string, id: ModelId): ModelEntry
    requires id in upstream.entries || id in existing.entries
  {
    if id !in existing.entries then upstream.entries[id]
    else if id in upstream.entries then Carried(existing.entries[id], upstream.entries[id])
    else Rescued(existing.entries[id], today)
  }

  /** The registry after a run. */
  function Merged(upstream: Models, existing: Models, today: string): Models {
    Models(existing.ids + New(upstream.ids, existing),
           map id | id in upstream.entries.Keys + existing.entries.Keys :: EntryAfter(upstream, existing, today, id))
  }

  /** What a run reports. */
  function Reported(upstream: Models, existing: Models): Delta {
    Delta(Gone(existing.ids, upstream, existing), Back(existing.ids, upstream, existing))
  }

  lemma {:induction false} NewKeeps(ids: seq<ModelId>, existing: Models)
    ensures forall id :: id in New(ids, existing) <==> id in ids && id !in existing.entries
    ensures Distinct(ids) ==> Distinct(New(ids, existing))
  {
    if ids != [] {
      NewKeeps(ids[..|ids| - 1], existing);
    }
  }

  lemma {:induction false} NothingToReport(ids: seq<ModelId>, upstream: Models, existing: Models)
    requires forall id :: !WentAway(upstream, existing, id) && !CameBack(upstream, existing, id)
    ensures Gone(ids, upstream, existing) == [] && Back(ids, upstream, existing) == []
  {
    if ids != [] {
      NothingToReport(ids[..|ids| - 1], upstream, existing);
    }
  }

  lemma {:induction false} NothingNew(ids: seq<ModelId>, existing: Models)
    requires forall id :: id in ids ==> id in existing.entries
    ensures New(ids, existing) == []
  {
    if ids != [] {
      NothingNew(ids[..|ids| - 1], existing);
    }
  }

  /** Pass 1 has listed `ids`, each with its new entry. */
  ghost predicate Walked(reordered: map<ModelId, ModelEntry>, ids: seq<ModelId>,
                         upstream: Models, existing: Models, today: string) {
    && (forall id :: id in reordered <==> id in ids)
    && (forall id :: id in ids ==> id in existing.entries)
    && (forall id :: id in reordered ==> reordered[id] == EntryAfter(upstream, existing, today, id))
  }

  lemma WalkStep(reordered: map<ModelId, ModelEntry>, ids: seq<ModelId>, i: nat,
                 upstream: Models, existing: Models, today: string)
    requires i < |ids| && ids[i] in existing.entries
    requires Walked(reordered, ids[..i], upstream, existing, today)
    ensures ids[..i + 1] == ids[..i] + [ids[i]]
    ensures var entry := EntryAfter(upstream, existing, today, ids[i]);
            Walked(reordered[ids[i] := entry], ids[..i + 1], upstream, existing, today)
    ensures Gone(ids[..i + 1], upstream, existing)
         == Gone(ids[..i], upstream, existing) + if WentAway(upstream, existing, ids[i]) then [ids[i]] else []
    ensures Back(ids[..i + 1], upstream, existing)
         == Back(ids[..i], upstream, existing) + if CameBack(upstream, existing, ids[i]) then [ids[i]] else []
  {
    assert ids[..i + 1] == ids[..i] + [ids[i]];
    assert ids[..i + 1][..i] == ids[..i];
  }

  /** The upstream map, updated in place. */
  class ModelMap {
    var models: Models

    constructor (models: Models)
      ensures this.models == models
    {
      this.models := models;
    }

    /** Pass 1: the known models in their old order. */
    method WalkKnown(existing: Models, today: string)
      returns (order: seq<ModelId>, reordered: map<ModelId, ModelEntry>, delta: Delta)
      requires existing.Valid()
      ensures order == existing.ids && reordered.Keys == existing.entries.Keys
      ensures forall id :: id in reordered ==> reordered[id] == EntryAfter(models, existing, today, id)
      ensures delta == Reported(models, existing)
    {
      ghost var upstream := models;
      order, reordered, delta := [], map[], Delta([], []);
      for i := 0 to |existing.ids|
        invariant order == existing.ids[..i]
        invariant Walked(reordered, existing.ids[..i], upstream, existing, today)
        invariant delta == Delta(Gone(existing.ids[..i], upstream, existing), Back(existing.ids[..i], upstream, existing))
      {
        var id := existing.ids[i];
        WalkStep(reordered, existing.ids, i, upstream, existing, today);
        var known := existing.entries[id];
        var entry: ModelEntry;
        if id in models.entries {
          entry := models.entries[id];
          if Dated(known) && !Dated(entry) {
            entry := entry.(deprecation := Null);
            delta := delta.(resurrected := delta.resurrected + [id]);
          }
        } else {
          entry := known;
          if !Dated(entry) {
            entry := entry.(deprecation := Date(today));
            delta := delta.(newlyDeprecated := delta.newlyDeprecated + [id]);
          }
        }
        order := order + [id];
        reordered := reordered[id := entry];
      }
      assert existing.ids[..|existing.ids|] == existing.ids;
    }

    method HandleDeprecation(existing: Models, today: string) returns (delta: Delta)
      requires models.Valid() && existing.Valid()
      modifies this
      ensures models == Merged(old(models), existing, today)
      ensures delta == Reported(old(models), existing)
    {
      var order, reordered;
      order, reordered, delta := WalkKnown(existing, today);
      var result := Models(order, reordered);
      for i := 0 to |models.ids|
        invariant result == Appended(Models(order, reordered), models, i)
      {
        var id := models.ids[i];
        if id !in result.entries {
          result := Models(result.ids + [id], result.entries[id := models.entries[id]]);
        }
      }
      AppendedIsMerged(Models(order, reordered), models, existing, today);
      models := result;
    }
  }

  /** Pass 2 over the first `n` upstream ids: the truly new models, at the end. */
  function Appended(base: Models, upstream: Models, n: nat): Models
    requires n <= |upstream.ids| && forall id :: id in upstream.ids ==> id in upstream.entries
  {
    if n == 0 then base
    else
      var before, id := Appended(base, upstream, n - 1), upstream.ids[n - 1];
      if id in before.entries then before
      else Models(before.ids + [id], before.entries[id := upstream.entries[id]])
  }

  lemma {:induction false} AppendedIsNew(base: Models, upstream: Models, existing: Models, n: nat)
    requires n <= |upstream.ids| && upstream.Valid()
    requires forall id :: id in base.entries <==> id in existing.entries
    ensures Appended(base, upstream, n).ids == base.ids + New(upstream.ids[..n], existing)
  {
    if n == 0 {
      assert base.ids + New([], existing) == base.ids;
    } else {
      var ids, id := upstream.ids[..n - 1], upstream.ids[n - 1];
      AppendedIsNew(base, upstream, existing, n - 1);
      assert upstream.ids[..n] == ids + [id];
      assert id in Appended(base, upstream, n - 1).entries <==> id in existing.entries by {
        AppendedEntries(base, upstream, n - 1);
      }
    }
  }

  lemma {:induction false} AppendedEntries(base: Models, upstream: Models, n: nat)
    requires n <= |upstream.ids| && upstream.Valid()
    ensures var r := Appended(base, upstream, n);
            && (forall id :: id in r.entries <==> id in base.entries || id in upstream.ids[..n])
            && (forall id :: id in r.entries ==>
                  r.entries[id] == if id in base.entries then base.entries[id] else upstream.entries[id])
  {
    if n > 0 {
      AppendedEntries(base, upstream, n - 1);
      assert upstream.ids[..n] == upstream.ids[..n - 1] + [upstream.ids[n - 1]];
    }
  }

  /** The two passes together give the merged registry. */
  lemma AppendedIsMerged(base: Models, upstream: Models, existing: Models, today: string)
    requires upstream.Valid() && existing.Valid()
    requires base.ids == existing.ids && forall id :: id in base.entries <==> id in existing.entries
    requires forall id :: id in base.entries ==> base.entries[id] == EntryAfter(upstream, existing, today, id)
    ensures Appended(base, upstream, |upstream.ids|) == Merged(upstream, existing, today)
  {
    var r, merged := Appended(base, upstream, |upstream.ids|), Merged(upstream, existing, today);
    assert upstream.ids[..|upstream.ids|] == upstream.ids;
    AppendedEntries(base, upstream, |upstream.ids|);
    SameMap(r.entries, merged.entries);
    AppendedIsNew(base, upstream, existing, |upstream.ids|);
  }

  lemma SameMap(a: map<ModelId, ModelEntry>, b: map<ModelId, ModelEntry>)
    requires forall id :: id in a <==> id in b
    requires forall id :: id in a ==> a[id] == b[id]
    ensures a == b
  {}

  /** Every known id survives in its old place, new ids follow in merge order, and nothing else. A
      model that is gone upstream carries a date, the one it had if it had one. */
  lemma LosesNothing(upstream: Models, existing: Models, today: string)
    requires upstream.Valid() && existing.Valid() && today != ""
    ensures var merged := Merged(upstream, existing, today);
            && merged.Valid()
            && existing.ids <= merged.ids
            && merged.ids[|existing.ids|..] == New(upstream.ids, existing)
            && (forall id :: id in merged.ids <==> id in existing.ids || id in upstream.ids)
            && (forall id :: id in existing.ids && id !in upstream.ids ==>
                  Dated(merged.entries[id]) && (Dated(existing.entries[id]) ==> merged.entries[id] == existing.entries[id]))
  {
    NewKeeps(upstream.ids, existing);
    DistinctConcat(existing.ids, New(upstream.ids, existing));
  }

  predicate HasDate(d: Deprecation) {
    d !in {Absent, Null, Date("")}
  }

  lemma DatedExactly(e: ModelEntry)
    ensures Dated(e) <==> HasDate(e.deprecation)
  {
    if e.deprecation.Date? && e.deprecation.date == "" {
      assert e.deprecation == Date("");
    }
  }

  /** A model upstream lists has upstream's fields, its deprecation too, except that one that lost its
      date comes back with null. A model upstream no longer lists keeps its fields, and gets today's
      date when it had none. */
  lemma EntriesExactly(upstream: Models, existing: Models, today: string)
    requires upstream.Valid() && existing.Valid()
    ensures var merged := Merged(upstream, existing, today);
            && (forall id :: id in upstream.ids ==>
                  var known := id in existing.ids && HasDate(existing.entries[id].deprecation);
                  && merged.entries[id].body == upstream.entries[id].body
                  && merged.entries[id].deprecation
                     == if known && !HasDate(upstream.entries[id].deprecation) then Null else upstream.entries[id].deprecation)
            && (forall id :: id in existing.ids && id !in upstream.ids ==>
                  && merged.entries[id].body == existing.entries[id].body
                  && merged.entries[id].deprecation
                     == if HasDate(existing.entries[id].deprecation) then existing.entries[id].deprecation else Date(today))
  {
    forall e: ModelEntry ensures Dated(e) <==> HasDate(e.deprecation) {
      DatedExactly(e);
    }
  }

  /** `picked` lists the ids at the positions `at`, in order. */
  ghost predicate Picks(picked: seq<ModelId>, at: seq<nat>, ids: seq<ModelId>) {
    && |at| == |picked|
    && (forall i, j :: 0 <= i < j < |at| ==> at[i] < at[j])
    && (forall i :: 0 <= i < |at| ==> at[i] < |ids| && picked[i] == ids[at[i]])
  }

  lemma {:induction false} PicksOf(ids: seq<ModelId>, upstream: Models, existing: Models) returns (gone: seq<nat>, back: seq<nat>)
    ensures Picks(Gone(ids, upstream, existing), gone, ids) && Picks(Back(ids, upstream, existing), back, ids)
    ensures forall k :: 0 <= k < |ids| ==> (k in gone <==> WentAway(upstream, existing, ids[k]))
    ensures forall k :: 0 <= k < |ids| ==> (k in back <==> CameBack(upstream, existing, ids[k]))
  {
    gone, back := [], [];
    if ids != [] {
      var n := |ids| - 1;
      gone, back := PicksOf(ids[..n], upstream, existing);
      gone := gone + if WentAway(upstream, existing, ids[n]) then [n] else [];
      back := back + if CameBack(upstream, existing, ids[n]) then [n] else [];
    }
  }

  /** The report lists, in the registry's order, the models that have left upstream without a date,
      and those that had one and are back upstream without. */
  lemma ReportExactly(upstream: Models, existing: Models) returns (gone: seq<nat>, back: seq<nat>)
    requires upstream.Valid() && existing.Valid()
    ensures Picks(Reported(upstream, existing).newlyDeprecated, gone, existing.ids)
    ensures Picks(Reported(upstream, existing).resurrected, back, existing.ids)
    ensures forall k :: 0 <= k < |existing.ids| ==>
              var id := existing.ids[k];
              && (k in gone <==> id !in upstream.ids && !HasDate(existing.entries[id].deprecation))
              && (k in back <==> id in upstream.ids && HasDate(existing.entries[id].deprecation)
                                 && !HasDate(upstream.entries[id].deprecation))
  {
    gone, back := PicksOf(existing.ids, upstream, existing);
    forall k | 0 <= k < |existing.ids| ensures existing.ids[k] in existing.entries {
      assert existing.ids[k] in existing.ids;
    }
    forall e: ModelEntry ensures Dated(e) <==> HasDate(e.deprecation) {
      DatedExactly(e);
    }
  }

  /** A second run of the same upstream over the first run's output reports nothing and keeps the
      order; an entry comes out different only if the first run resurrected it, and then it is
      upstream's own again. */
  lemma SecondRunReportsNothing(upstream: Models, existing: Models, today: string, later: string)
    requires upstream.Valid() && existing.Valid() && today != ""
    ensures var first := Merged(upstream, existing, today);
            var second := Merged(upstream, first, later);
            && Reported(upstream, first) == Delta([], [])
            && second.ids == first.ids
            && second.entries.Keys == first.entries.Keys
            && forall id :: id in first.entries ==>
                 second.entries[id] == if CameBack(upstream, existing, id) then upstream.entries[id] else first.entries[id]
  {
    var first := Merged(upstream, existing, today);
    NothingLeft(upstream, existing, today);
    NothingToReport(first.ids, upstream, first);
    NothingNew(upstream.ids, first);
    assert first.ids + [] == first.ids;
    forall id | id in first.entries
      ensures EntryAfter(upstream, first, later, id)
           == if CameBack(upstream, existing, id) then upstream.entries[id] else first.entries[id]
    {}
  }

  lemma NothingLeft(upstream: Models, existing: Models, today: string)
    requires today != ""
    ensures var first := Merged(upstream, existing, today);
            forall id :: !WentAway(upstream, first, id) && !CameBack(upstream, first, id)
  {}

  /** So the file itself settles at once exactly when upstream already had a null date for every
      model the first run resurrected; otherwise that null turns into upstream's own value. */
  lemma SettlesAtOnceExactly(upstream: Models, existing: Models, today: string, later: string)
    requires upstream.Valid() && existing.Valid() && today != ""
    ensures Merged(upstream, Merged(upstream, existing, today), later) == Merged(upstream, existing, today) <==>
              forall id :: CameBack(upstream, existing, id) ==> upstream.entries[id].deprecation == Null
  {
    var first := Merged(upstream, existing, today);
    var second := Merged(upstream, first, later);
    SecondRunReportsNothing(upstream, existing, today, later);
    forall id | CameBack(upstream, existing, id)
      ensures id in first.entries && first.entries[id] == upstream.entries[id].(deprecation := Null)
    {}
    if forall id :: CameBack(upstream, existing, id) ==> upstream.entries[id].deprecation == Null {
      assert second.entries == first.entries;
    } else {
      var id :| CameBack(upstream, existing, id) && upstream.entries[id].deprecation != Null;
      assert second.entries[id] != first.entries[id];
    }
  }

  /** From the second run on nothing changes. */
  lemma ThirdRunChangesNothing(upstream: Models, existing: Models, today: string, later: string, latest: string)
    requires upstream.Valid() && existing.Valid() && today != "" && later != ""
    ensures var second := Merged(upstream, Merged(upstream, existing, today), later);
            Merged(upstream, second, latest) == second && Reported(upstream, second) == Delta([], [])
  {
    var first := Merged(upstream, existing, today);
    assert first.Valid() by {
      LosesNothing(upstream, existing, today);
    }
    NothingLeft(upstream, existing, today);
    SettlesAtOnceExactly(upstream, first, later, latest);
    SecondRunReportsNothing(upstream, first, later, latest);
  }

  /** A model that had a date comes back upstream without one: the first run writes null, the second
      leaves the field out. */
  lemma ResurrectedFlaps(today: string, later: string)
    requires today != ""
    ensures var id := ModelId("m");
            var upstream := Models([id], map[id := ModelEntry("body", Absent)]);
            var existing := Models([id], map[id := ModelEntry("body", Date("2025-01-01"))]);
            var first := Merged(upstream, existing, today);
            && first.entries[id].deprecation == Null
            && Merged(upstream, first, later).entries[id].deprecation == Absent
            && Merged(upstream, first, later) != first
  {}
}
