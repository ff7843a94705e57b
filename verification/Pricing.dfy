/** Price lookup: a candidate ladder, then a longest-prefix fallback, memoised per model id. */
module Pricing {
  import opened Common

  datatype ModelPrice = ModelPrice(input: real, output: real, cacheRead: Option<real>, cacheCreate: Option<real>)

  datatype Via = Exact | Normalized | Prefix

  /** What the table answers: one of its prices, or a member it inherits as a plain object. */
  datatype Price = Listed(listed: ModelPrice) | Inherited(name: string)

  datatype Resolution = Unknown | Priced(price: Price, matchedId: string, via: Via)

  /** The priced table in its own order, the names a plain object inherits, and the text functions
      the lookup uses: the registry's candidate ladder and lower-casing. */
  datatype Registry = Registry(ids: seq<string>, prices: map<string, ModelPrice>, inherited: set<string>,
                               candidates: string -> seq<string>, lower: string -> string) {
    ghost predicate Valid() {
      && (forall id :: id in ids <==> id in prices)
      && "" !in ids && "" !in inherited
    }

    /** `table[key]` is truthy: its own keys and the inherited names alike. */
    predicate Answers(key: string) {
      key in prices || key in inherited
    }

    function At(key: string): Price
      requires Answers(key)
    {
      if key in prices then Listed(prices[key]) else Inherited(key)
    }
  }

  /** The lower-cased index: the last id listed wins. */
  function LowerIndex(r: Registry, ids: seq<string>, wanted: string): Option<string> {
    if ids == [] then None
    else if r.lower(ids[|ids| - 1]) == wanted then Some(ids[|ids| - 1])
    else LowerIndex(r, ids[..|ids| - 1], wanted)
  }

  function Hit(r: Registry, candidate: string): Option<string> {
    if r.Answers(candidate) then Some(candidate) else LowerIndex(r, r.ids, r.lower(candidate))
  }

  function FirstHit(r: Registry, candidates: seq<string>): Option<string> {
    if candidates == [] then None
    else if Hit(r, candidates[0]).Some? then Hit(r, candidates[0])
    else FirstHit(r, candidates[1..])
  }

  /** `id` is a prefix of the query, ending at its end or at a separator. */
  predicate AtBoundary(r: Registry, id: string, modelId: string) {
    var lower, idLower := r.lower(modelId), r.lower(id);
    && idLower <= lower
    && (|lower| == |idLower| || lower[|idLower|] in {'-', '@', ':'})
  }

  /** The prefix scan over the first entries of the table. */
  function BestPrefix(r: Registry, ids: seq<string>, modelId: string): Option<string> {
    if ids == [] then None
    else
      var id, before := ids[|ids| - 1], BestPrefix(r, ids[..|ids| - 1], modelId);
      if AtBoundary(r, id, modelId) && (before.None? || |id| > |before.value|) then Some(id) else before
  }

  /** What an uncached lookup finds. */
  function Fresh(r: Registry, modelId: string): Resolution
    requires r.Valid()
  {
    if modelId == "" then Unknown
    else
      match FirstHit(r, r.candidates(modelId))
      case Some(hit) =>
        HitsArePriced(r, r.candidates(modelId));
        Priced(r.At(hit), hit, if hit == modelId then Exact else Normalized)
      case None =>
        match BestPrefix(r, r.ids, modelId)
        case Some(id) =>
          PrefixIsListed(r, r.ids, modelId);
          Priced(Listed(r.prices[id]), id, Prefix)
        case None => Unknown
  }

  lemma {:induction false} IndexIsListed(r: Registry, ids: seq<string>, wanted: string)
    ensures LowerIndex(r, ids, wanted).Some? <==> exists id :: id in ids && r.lower(id) == wanted
    ensures LowerIndex(r, ids, wanted).Some? ==>
              LowerIndex(r, ids, wanted).value in ids && r.lower(LowerIndex(r, ids, wanted).value) == wanted
  {
    if ids != [] {
      IndexIsListed(r, ids[..|ids| - 1], wanted);
      assert forall id :: id in ids <==> id in ids[..|ids| - 1] || id == ids[|ids| - 1];
    }
  }

  lemma {:induction false} HitsArePriced(r: Registry, candidates: seq<string>)
    requires r.Valid()
    ensures FirstHit(r, candidates).Some? ==> r.Answers(FirstHit(r, candidates).value)
  {
    if candidates != [] {
      IndexIsListed(r, r.ids, r.lower(candidates[0]));
      HitsArePriced(r, candidates[1..]);
    }
  }

  lemma {:induction false} PrefixIsListed(r: Registry, ids: seq<string>, modelId: string)
    ensures BestPrefix(r, ids, modelId).Some? ==> BestPrefix(r, ids, modelId).value in ids
  {
    if ids != [] {
      PrefixIsListed(r, ids[..|ids| - 1], modelId);
    }
  }

  /** The fallback returns a longest table id that prefixes the query at a boundary, and nothing
      exactly when no id does. */
  lemma {:induction false} LongestPrefix(r: Registry, ids: seq<string>, modelId: string)
    ensures var best := BestPrefix(r, ids, modelId);
            && (best.None? <==> forall id :: id in ids ==> !AtBoundary(r, id, modelId))
            && (best.Some? ==>
                  && best.value in ids && AtBoundary(r, best.value, modelId)
                  && forall id :: id in ids && AtBoundary(r, id, modelId) ==> |id| <= |best.value|)
  {
    if ids != [] {
      LongestPrefix(r, ids[..|ids| - 1], modelId);
      assert forall id :: id in ids <==> id in ids[..|ids| - 1] || id == ids[|ids| - 1];
    }
  }

  /** The table lists the candidate, up to case. */
  predicate InTable(r: Registry, candidate: string) {
    candidate in r.prices || exists id :: id in r.ids && r.lower(id) == r.lower(candidate)
  }

  /** The lookup takes the candidate: it is in the table, or the table inherits a member so named. */
  predicate Taken(r: Registry, candidate: string) {
    candidate in r.inherited || InTable(r, candidate)
  }

  lemma HitExactly(r: Registry, candidate: string)
    requires r.Valid()
    ensures Hit(r, candidate).Some? <==> Taken(r, candidate)
    ensures Hit(r, candidate).Some? ==>
              (Hit(r, candidate).value in r.prices <==> candidate in r.prices || candidate !in r.inherited)
  {
    IndexIsListed(r, r.ids, r.lower(candidate));
  }

  lemma {:induction false} NoHitExactly(r: Registry, candidates: seq<string>)
    requires r.Valid()
    ensures FirstHit(r, candidates).None? <==> forall c :: c in candidates ==> !Taken(r, c)
  {
    if candidates != [] {
      HitExactly(r, candidates[0]);
      NoHitExactly(r, candidates[1..]);
      assert candidates == [candidates[0]] + candidates[1..];
    }
  }

  /** The first candidate taken decides. */
  lemma {:induction false} FirstTakenDecides(r: Registry, candidates: seq<string>, i: nat)
    requires i < |candidates| && Taken(r, candidates[i]) && forall k :: 0 <= k < i ==> !Taken(r, candidates[k])
    requires r.Valid()
    ensures FirstHit(r, candidates) == Hit(r, candidates[i])
  {
    HitExactly(r, candidates[0]);
    if i > 0 {
      FirstTakenDecides(r, candidates[1..], i - 1);
    }
  }

  /** A lookup is unknown exactly when no candidate is in the table, up to case, or names an
      inherited member, and no table id prefixes the query at a boundary; the empty id is always
      unknown. */
  lemma UnknownExactly(r: Registry, modelId: string)
    requires r.Valid()
    ensures Fresh(r, modelId).Unknown? <==>
              || modelId == ""
              || ((forall c :: c in r.candidates(modelId) ==> !InTable(r, c) && c !in r.inherited)
                  && forall id :: id in r.ids ==> !AtBoundary(r, id, modelId))
  {
    NoHitExactly(r, r.candidates(modelId));
    LongestPrefix(r, r.ids, modelId);
  }

  /** The first candidate that is taken names an inherited member and no price. */
  ghost predicate StartsInherited(r: Registry, candidates: seq<string>) {
    exists i :: 0 <= i < |candidates| && candidates[i] in r.inherited && candidates[i] !in r.prices
                && forall k :: 0 <= k < i ==> !Taken(r, candidates[k])
  }

  /** A price that is no price of the table comes back exactly when the first candidate taken names
      an inherited member that is not listed under that very name. */
  lemma GuessesExactly(r: Registry, modelId: string)
    requires r.Valid()
    ensures Fresh(r, modelId).Priced? && Fresh(r, modelId).price.Inherited? <==>
              modelId != "" && StartsInherited(r, r.candidates(modelId))
  {
    var candidates := r.candidates(modelId);
    NoHitExactly(r, candidates);
    HitsArePriced(r, candidates);
    if exists c :: c in candidates && Taken(r, c) {
      var i := FirstTaken(r, candidates);
      FirstTakenDecides(r, candidates, i);
      HitExactly(r, candidates[i]);
      if StartsInherited(r, candidates) {
        var j :| 0 <= j < |candidates| && candidates[j] in r.inherited && candidates[j] !in r.prices
                 && forall k :: 0 <= k < j ==> !Taken(r, candidates[k]);
        assert i == j;
      }
    } else if StartsInherited(r, candidates) {
      var j :| 0 <= j < |candidates| && candidates[j] in r.inherited;
      assert Taken(r, candidates[j]);
      assert false;
    }
  }

  lemma FirstTaken(r: Registry, candidates: seq<string>) returns (i: nat)
    requires exists c :: c in candidates && Taken(r, c)
    ensures i < |candidates| && Taken(r, candidates[i]) && forall k :: 0 <= k < i ==> !Taken(r, candidates[k])
  {
    var c :| c in candidates && Taken(r, c);
    var j :| 0 <= j < |candidates| && candidates[j] == c;
    i := 0;
    while !Taken(r, candidates[i])
      invariant i <= j && forall k :: 0 <= k < i ==> !Taken(r, candidates[k])
      decreases j - i
    {
      i := i + 1;
    }
  }

  /** The input: no model is called "constructor", every object has a member of that name, and the
      ladder starts with the id itself. */
  lemma ConstructorHasAPrice(r: Registry)
    requires r.Valid() && "constructor" in r.inherited && "constructor" !in r.prices
    requires r.candidates("constructor") != [] && r.candidates("constructor")[0] == "constructor"
    ensures Fresh(r, "constructor") == Priced(Inherited("constructor"), "constructor", Exact)
  {
    FirstTakenDecides(r, r.candidates("constructor"), 0);
  }

  /** A boundary prefix, spelt out: the query is the id, up to case, or goes on with a separator. */
  lemma BoundaryExactly(r: Registry, id: string, modelId: string)
    ensures AtBoundary(r, id, modelId) <==>
              || r.lower(modelId) == r.lower(id)
              || exists c, rest :: c in "-@:" && r.lower(modelId) == r.lower(id) + [c] + rest
  {
    var lower, idLower := r.lower(modelId), r.lower(id);
    if AtBoundary(r, id, modelId) && |lower| > |idLower| {
      assert lower == idLower + [lower[|idLower|]] + lower[|idLower| + 1..];
    }
    forall c, rest | c in "-@:" && lower == idLower + [c] + rest ensures AtBoundary(r, id, modelId) {
      assert lower[..|idLower|] == idLower && lower[|idLower|] == c;
    }
  }

  /** The candidate's own entry when it has one, else the last id listed that is the same up to case. */
  ghost predicate Matches(r: Registry, candidate: string, id: string) {
    if r.Answers(candidate) then id == candidate
    else exists k :: 0 <= k < |r.ids| && r.ids[k] == id && r.lower(id) == r.lower(candidate)
                     && forall j :: k < j < |r.ids| ==> r.lower(r.ids[j]) != r.lower(candidate)
  }

  lemma {:induction false} IndexIsLast(r: Registry, ids: seq<string>, wanted: string) returns (k: nat)
    requires LowerIndex(r, ids, wanted).Some?
    ensures k < |ids| && ids[k] == LowerIndex(r, ids, wanted).value && r.lower(ids[k]) == wanted
    ensures forall j :: k < j < |ids| ==> r.lower(ids[j]) != wanted
  {
    k := |ids| - 1;
    if r.lower(ids[k]) != wanted {
      var n := k;
      k := IndexIsLast(r, ids[..n], wanted);
      assert forall j :: 0 <= j < n ==> ids[..n][j] == ids[j];
    }
  }

  /** The entry at `k` is a longest boundary prefix, and the first such. */
  ghost predicate FirstLongest(r: Registry, ids: seq<string>, modelId: string, k: nat)
    requires k < |ids|
  {
    AtBoundary(r, ids[k], modelId) &&
    forall j :: 0 <= j < |ids| && AtBoundary(r, ids[j], modelId) ==>
      |ids[j]| < |ids[k]| || (|ids[j]| == |ids[k]| && k <= j)
  }

  lemma {:induction false} PrefixIsFirst(r: Registry, ids: seq<string>, modelId: string) returns (k: nat)
    requires BestPrefix(r, ids, modelId).Some?
    ensures k < |ids| && ids[k] == BestPrefix(r, ids, modelId).value && FirstLongest(r, ids, modelId, k)
  {
    var n := |ids| - 1;
    var before := BestPrefix(r, ids[..n], modelId);
    assert forall j :: 0 <= j < n ==> ids[..n][j] == ids[j] && ids[j] in ids[..n];
    if AtBoundary(r, ids[n], modelId) && (before.None? || |ids[n]| > |before.value|) {
      k := n;
      LongestPrefix(r, ids[..n], modelId);
    } else {
      k := PrefixIsFirst(r, ids[..n], modelId);
    }
  }

  /** What an answer says. The price is that of the matched id; it is by prefix exactly when no
      candidate is taken, and then matches the first of the longest boundary prefixes; else the first
      candidate taken decides, and the answer is exact when the matched id is the query itself. */
  lemma AnswersExactly(r: Registry, modelId: string)
    requires r.Valid() && Fresh(r, modelId).Priced?
    ensures var answer, candidates := Fresh(r, modelId), r.candidates(modelId);
            && (answer.matchedId in r.prices ==> answer.price == Listed(r.prices[answer.matchedId]))
            && (answer.matchedId !in r.prices ==> answer.price == Inherited(answer.matchedId))
            && (answer.via == Prefix <==> forall c :: c in candidates ==> !Taken(r, c))
            && (answer.via == Prefix ==>
                  exists k :: 0 <= k < |r.ids| && r.ids[k] == answer.matchedId && FirstLongest(r, r.ids, modelId, k))
            && (answer.via != Prefix ==>
                  && (answer.via == Exact <==> answer.matchedId == modelId)
                  && exists i :: 0 <= i < |candidates| && Taken(r, candidates[i]) && Matches(r, candidates[i], answer.matchedId)
                                 && forall k :: 0 <= k < i ==> !Taken(r, candidates[k]))
  {
    var candidates := r.candidates(modelId);
    NoHitExactly(r, candidates);
    if FirstHit(r, candidates).Some? {
      HitsArePriced(r, candidates);
      var i := FirstTaken(r, candidates);
      FirstTakenDecides(r, candidates, i);
      if !r.Answers(candidates[i]) {
        var k := IndexIsLast(r, r.ids, r.lower(candidates[i]));
      }
    } else {
      PrefixIsListed(r, r.ids, modelId);
      var k := PrefixIsFirst(r, r.ids, modelId);
    }
  }

  /** The resolver with its memo. */
  class Resolver {
    const registry: Registry
    var resolveCache: map<string, Resolution>

    ghost predicate Valid()
      reads this
    {
      registry.Valid() && forall id :: id in resolveCache ==> resolveCache[id] == Fresh(registry, id)
    }

    constructor (registry: Registry)
      requires registry.Valid()
      ensures Valid() && this.registry == registry
    {
      this.registry, resolveCache := registry, map[];
    }

    method PrefixMatch(modelId: string) returns (best: Option<string>)
      ensures best == BestPrefix(registry, registry.ids, modelId)
    {
      best := None;
      for i := 0 to |registry.ids|
        invariant best == BestPrefix(registry, registry.ids[..i], modelId)
      {
        var id := registry.ids[i];
        assert registry.ids[..i + 1][..i] == registry.ids[..i];
        if AtBoundary(registry, id, modelId) {
          if best.None? || |id| > |best.value| {
            best := Some(id);
          }
        }
      }
      assert registry.ids[..|registry.ids|] == registry.ids;
    }

    /** A memoised lookup is what a fresh one would find, whatever was asked before. */
    method ResolvePrice(modelId: string) returns (r: Resolution)
      requires Valid()
      modifies this`resolveCache
      ensures Valid()
      ensures r == Fresh(registry, modelId)
      ensures forall id :: id in old(resolveCache) ==> id in resolveCache
    {
      if modelId == "" {
        return Unknown;
      }
      if modelId in resolveCache {
        return resolveCache[modelId];
      }
      var candidates := registry.candidates(modelId);
      var hit: Option<string> := None;
      var i := 0;
      while i < |candidates| && hit.None?
        invariant 0 <= i <= |candidates|
        invariant hit.None? ==> FirstHit(registry, candidates) == FirstHit(registry, candidates[i..])
        invariant hit.Some? ==> FirstHit(registry, candidates) == hit
      {
        assert candidates[i..][0] == candidates[i] && candidates[i..][1..] == candidates[i + 1..];
        hit := Hit(registry, candidates[i]);
        i := i + 1;
      }
      assert candidates[|candidates|..] == [];
      HitsArePriced(registry, candidates);
      r := Unknown;
      if hit.Some? {
        r := Priced(registry.At(hit.value), hit.value, if hit.value == modelId then Exact else Normalized);
      } else {
        var prefix := PrefixMatch(modelId);
        PrefixIsListed(registry, registry.ids, modelId);
        if prefix.Some? {
          r := Priced(Listed(registry.prices[prefix.value]), prefix.value, Prefix);
        }
      }
      resolveCache := resolveCache[modelId := r];
    }

    /** Any sequence of queries is answered as if each were the first. */
    method ResolveAll(modelIds: seq<string>) returns (answers: seq<Resolution>)
      requires Valid()
      modifies this`resolveCache
      ensures Valid()
      ensures |answers| == |modelIds|
      ensures forall i :: 0 <= i < |answers| ==> answers[i] == Fresh(registry, modelIds[i])
    {
      answers := [];
      for i := 0 to |modelIds|
        invariant Valid() && |answers| == i
        invariant forall j :: 0 <= j < i ==> answers[j] == Fresh(registry, modelIds[j])
      {
        var r := ResolvePrice(modelIds[i]);
        answers := answers + [r];
      }
    }
  }
}
