/** Resolving the winning `env_var` row per key, and the vault names both sides must agree on. */
module EnvVars {
  import opened Common

  datatype Kind = Development | Preview | Promoted

  /** A row's target: every kind, or one. */
  datatype Target = All | Only(kind: Kind)

  /** A candidate row. `secret` is the value it leads to. */
  datatype Row = Row(key: string, target: Option<Target>, environmentId: Option<string>, secret: string)

  predicate TargetMatches(target: Target, envTarget: Kind) {
    target.All? || target.kind == envTarget
  }

  predicate Applies(row: Row, envId: string, envTarget: Option<Kind>) {
    || row.environmentId == Some(envId)
    || (row.environmentId.None? && row.target.Some? && envTarget.Some?
        && TargetMatches(row.target.value, envTarget.value))
  }

  function Rank(row: Row): nat {
    if row.environmentId.Some? then 4
    else if row.target.Some? then (if row.target.value.All? then 1 else 3)
    else 0
  }

  predicate Candidate(row: Row, key: string, envId: string, envTarget: Option<Kind>) {
    row.key == key && Applies(row, envId, envTarget)
  }

  /** The first of the highest-ranked candidates for a key. */
  function Best(rows: seq<Row>, key: string, envId: string, envTarget: Option<Kind>): Option<Row> {
    if rows == [] then None
    else
      var row, before := rows[|rows| - 1], Best(rows[..|rows| - 1], key, envId, envTarget);
      if Candidate(row, key, envId, envTarget) && (before.None? || Rank(row) > Rank(before.value)) then Some(row)
      else before
  }

  /** The keys with a candidate, in the order their first candidate comes. */
  function KeyOrder(rows: seq<Row>, envId: string, envTarget: Option<Kind>): seq<string> {
    if rows == [] then []
    else
      var row, before := rows[|rows| - 1], KeyOrder(rows[..|rows| - 1], envId, envTarget);
      if Applies(row, envId, envTarget) && row.key !in before then before + [row.key] else before
  }

  lemma {:induction false} KeyOrderLists(rows: seq<Row>, envId: string, envTarget: Option<Kind>)
    ensures Distinct(KeyOrder(rows, envId, envTarget))
    ensures forall key :: key in KeyOrder(rows, envId, envTarget) <==> Best(rows, key, envId, envTarget).Some?
  {
    if rows != [] {
      KeyOrderLists(rows[..|rows| - 1], envId, envTarget);
    }
  }

  /** The row is its key's winner: it is set on the environment itself; or, when no row of the key is,
      on the environment's kind; or, when no row of the key is on either, on every kind. */
  ghost predicate Wins(rows: seq<Row>, row: Row, envId: string, envTarget: Option<Kind>) {
    && row in rows
    && (|| row.environmentId == Some(envId)
        || (&& (forall r :: r in rows && r.key == row.key ==> r.environmentId != Some(envId))
            && row.environmentId.None? && envTarget.Some?
            && (|| row.target == Some(Only(envTarget.value))
                || (&& row.target == Some(All)
                    && forall r :: r in rows && r.key == row.key && r.environmentId.None? ==>
                         r.target != Some(Only(envTarget.value))))))
  }

  /** A row of the one key that applies comes before any of the other. */
  ghost predicate ComesFirst(rows: seq<Row>, key: string, other: string, envId: string, envTarget: Option<Kind>) {
    exists p :: 0 <= p < |rows| && Applies(rows[p], envId, envTarget) && rows[p].key == key
                && forall q :: 0 <= q <= p && Applies(rows[q], envId, envTarget) ==> rows[q].key != other
  }

  /** One row per key with a candidate, in the order of their first candidates: that key's best row,
      which under the unique indexes is the one that wins. */
  method ResolveEnvVarRows(rows: seq<Row>, envId: string, envTarget: Option<Kind>) returns (winners: seq<Row>)
    ensures var keys := KeyOrder(rows, envId, envTarget);
            && |winners| == |keys|
            && forall i :: 0 <= i < |keys| ==> Best(rows, keys[i], envId, envTarget) == Some(winners[i])
    ensures UniqueRows(rows) ==> forall row :: row in winners <==> Wins(rows, row, envId, envTarget)
    ensures forall i, j :: 0 <= i < j < |winners| ==>
              winners[i].key != winners[j].key && ComesFirst(rows, winners[i].key, winners[j].key, envId, envTarget)
  {
    var order: seq<string> := [];
    var winnerByKey: map<string, Row> := map[];
    for i := 0 to |rows|
      invariant order == KeyOrder(rows[..i], envId, envTarget)
      invariant forall key :: key in order <==> key in winnerByKey
      invariant forall key :: Best(rows[..i], key, envId, envTarget)
                           == if key in winnerByKey then Some(winnerByKey[key]) else None
    {
      var row := rows[i];
      assert rows[..i + 1][..i] == rows[..i];
      if !Applies(row, envId, envTarget) {
        continue;
      }
      if row.key !in winnerByKey {
        order := order + [row.key];
        winnerByKey := winnerByKey[row.key := row];
      } else if Rank(row) > Rank(winnerByKey[row.key]) {
        winnerByKey := winnerByKey[row.key := row];
      }
    }
    assert rows[..|rows|] == rows;
    winners := [];
    for i := 0 to |order|
      invariant |winners| == i
      invariant forall j :: 0 <= j < i ==> Best(rows, order[j], envId, envTarget) == Some(winners[j])
    {
      assert order[i] in order;
      winners := winners + [winnerByKey[order[i]]];
    }
    WinnersWin(rows, order, winners, envId, envTarget);
  }

  // ----- precedence and order-independence -----

  /** What the two partial unique indexes forbid: one key with one environment, or one key with one
      kind among the rows without an environment. */
  predicate Clash(a: Row, b: Row) {
    a.key == b.key &&
    ((a.environmentId.Some? && a.environmentId == b.environmentId)
     || (a.environmentId.None? && b.environmentId.None? && a.target.Some? && a.target == b.target))
  }

  ghost predicate UniqueRows(rows: seq<Row>) {
    forall a, b :: a in rows && b in rows && Clash(a, b) ==> a == b
  }

  /** Two candidates of one key that do not clash never tie. */
  lemma NoTies(a: Row, b: Row, key: string, envId: string, envTarget: Option<Kind>)
    requires Candidate(a, key, envId, envTarget) && Candidate(b, key, envId, envTarget) && !Clash(a, b)
    ensures Rank(a) != Rank(b)
  {}

  /** The row is a candidate and outranks every other candidate of its key. */
  ghost predicate Tops(rows: seq<Row>, row: Row, key: string, envId: string, envTarget: Option<Kind>) {
    && row in rows && Candidate(row, key, envId, envTarget)
    && forall r :: r in rows && r != row && Candidate(r, key, envId, envTarget) ==> Rank(r) < Rank(row)
  }

  lemma {:induction false} BestIsHighest(rows: seq<Row>, key: string, envId: string, envTarget: Option<Kind>)
    ensures var best := Best(rows, key, envId, envTarget);
            && (best.None? <==> forall r :: r in rows ==> !Candidate(r, key, envId, envTarget))
            && (best.Some? ==>
                  && best.value in rows && Candidate(best.value, key, envId, envTarget)
                  && forall r :: r in rows && Candidate(r, key, envId, envTarget) ==> Rank(r) <= Rank(best.value))
  {
    if rows != [] {
      var n := |rows| - 1;
      BestIsHighest(rows[..n], key, envId, envTarget);
      assert forall r :: r in rows <==> r in rows[..n] || r == rows[n];
    }
  }

  /** A tie goes to the row that comes first. */
  lemma {:induction false} TiesGoToTheFirst(rows: seq<Row>, key: string, envId: string, envTarget: Option<Kind>)
    ensures var best := Best(rows, key, envId, envTarget);
            best.Some? ==> exists p :: 0 <= p < |rows| && rows[p] == best.value &&
                             forall q :: 0 <= q < p && Candidate(rows[q], key, envId, envTarget) ==> Rank(rows[q]) < Rank(rows[p])
  {
    if rows != [] {
      var n := |rows| - 1;
      BestIsHighest(rows[..n], key, envId, envTarget);
      TiesGoToTheFirst(rows[..n], key, envId, envTarget);
      assert forall q :: 0 <= q < n ==> rows[..n][q] == rows[q] && rows[q] in rows[..n];
    }
  }

  /** Under the unique indexes the winner is the one row that outranks all other candidates. */
  lemma WinnerIsUniqueTop(rows: seq<Row>, key: string, envId: string, envTarget: Option<Kind>)
    requires UniqueRows(rows)
    ensures forall row :: Best(rows, key, envId, envTarget) == Some(row) <==> Tops(rows, row, key, envId, envTarget)
  {
    BestIsHighest(rows, key, envId, envTarget);
    forall a, b | a in rows && b in rows && a != b && Candidate(a, key, envId, envTarget) && Candidate(b, key, envId, envTarget)
      ensures Rank(a) != Rank(b)
    {
      NoTies(a, b, key, envId, envTarget);
    }
  }

  /** Under the unique indexes a key's best row is the one that wins. */
  lemma BestWins(rows: seq<Row>, key: string, envId: string, envTarget: Option<Kind>)
    requires UniqueRows(rows)
    ensures forall row :: Best(rows, key, envId, envTarget) == Some(row) <==> row.key == key && Wins(rows, row, envId, envTarget)
  {
    BestIsHighest(rows, key, envId, envTarget);
    forall a, b | a in rows && b in rows && a != b && Candidate(a, key, envId, envTarget) && Candidate(b, key, envId, envTarget)
      ensures Rank(a) != Rank(b)
    {
      NoTies(a, b, key, envId, envTarget);
    }
  }

  lemma {:induction false} KeysComeFirst(rows: seq<Row>, envId: string, envTarget: Option<Kind>, i: nat, j: nat)
    requires i < j < |KeyOrder(rows, envId, envTarget)|
    ensures ComesFirst(rows, KeyOrder(rows, envId, envTarget)[i], KeyOrder(rows, envId, envTarget)[j], envId, envTarget)
  {
    var n := |rows| - 1;
    var before := KeyOrder(rows[..n], envId, envTarget);
    assert forall q :: 0 <= q < n ==> rows[..n][q] == rows[q];
    if j < |before| {
      KeysComeFirst(rows[..n], envId, envTarget, i, j);
    } else {
      KeyOrderLists(rows[..n], envId, envTarget);
      BestIsHighest(rows[..n], before[i], envId, envTarget);
      BestIsHighest(rows[..n], rows[n].key, envId, envTarget);
      var r :| r in rows[..n] && Candidate(r, before[i], envId, envTarget);
      var p :| 0 <= p < n && rows[p] == r;
      assert forall q :: 0 <= q < n ==> rows[q] in rows[..n];
    }
  }

  lemma WinnersWin(rows: seq<Row>, keys: seq<string>, winners: seq<Row>, envId: string, envTarget: Option<Kind>)
    requires keys == KeyOrder(rows, envId, envTarget) && |winners| == |keys|
    requires forall i :: 0 <= i < |keys| ==> Best(rows, keys[i], envId, envTarget) == Some(winners[i])
    ensures UniqueRows(rows) ==> forall row :: row in winners <==> Wins(rows, row, envId, envTarget)
    ensures forall i, j :: 0 <= i < j < |winners| ==>
              winners[i].key != winners[j].key && ComesFirst(rows, winners[i].key, winners[j].key, envId, envTarget)
  {
    KeyOrderLists(rows, envId, envTarget);
    forall i | 0 <= i < |keys| ensures winners[i].key == keys[i] {
      BestIsHighest(rows, keys[i], envId, envTarget);
    }
    forall i, j | 0 <= i < j < |keys| ensures ComesFirst(rows, keys[i], keys[j], envId, envTarget) {
      KeysComeFirst(rows, envId, envTarget, i, j);
    }
    if UniqueRows(rows) {
      forall row ensures row in winners <==> Wins(rows, row, envId, envTarget) {
        BestWins(rows, row.key, envId, envTarget);
        if Wins(rows, row, envId, envTarget) {
          assert row.key in keys;
        }
      }
    }
  }

  /** Every order of the same rows gives the same winner for every key. */
  lemma OrderDoesNotMatter(rows: seq<Row>, other: seq<Row>, key: string, envId: string, envTarget: Option<Kind>)
    requires UniqueRows(rows) && multiset(rows) == multiset(other)
    ensures Best(other, key, envId, envTarget) == Best(rows, key, envId, envTarget)
  {
    SameRows(rows, other);
    WinnerIsUniqueTop(rows, key, envId, envTarget);
    WinnerIsUniqueTop(other, key, envId, envTarget);
    BestIsHighest(rows, key, envId, envTarget);
    BestIsHighest(other, key, envId, envTarget);
    forall row | Tops(rows, row, key, envId, envTarget) ensures Tops(other, row, key, envId, envTarget) {}
  }

  lemma SameRows(rows: seq<Row>, other: seq<Row>)
    requires multiset(rows) == multiset(other)
    ensures forall r :: r in rows <==> r in other
  {
    assert forall r :: r in rows <==> r in multiset(rows);
    assert forall r :: r in other <==> r in multiset(other);
  }

  // ----- vault names -----

  function KindName(t: Target): string {
    match t
    case All => "all"
    case Only(Development) => "development"
    case Only(Preview) => "preview"
    case Only(Promoted) => "promoted"
  }

  function EnvVaultName(appId: string, environmentId: string, key: string): string {
    "env_" + appId + "_" + environmentId + "_" + key
  }

  function KindVaultName(appId: string, target: Target, key: string): string {
    "env_" + appId + "_kind_" + KindName(target) + "_" + key
  }

  function FirstUnderscore(s: string): nat {
    if s == "" || s[0] == '_' then 0 else 1 + FirstUnderscore(s[1..])
  }

  lemma {:induction false} FirstUnderscoreIs(a: string, x: string)
    requires '_' !in a
    ensures FirstUnderscore(a + "_" + x) == |a|
  {
    if a == "" {
      assert (a + "_" + x)[0] == '_';
    } else {
      assert (a + "_" + x)[1..] == a[1..] + "_" + x;
      FirstUnderscoreIs(a[1..], x);
    }
  }

  lemma SplitAtUnderscore(a: string, x: string, b: string, y: string)
    requires '_' !in a && '_' !in b && a + "_" + x == b + "_" + y
    ensures a == b && x == y
  {
    var s := a + "_" + x;
    FirstUnderscoreIs(a, x);
    FirstUnderscoreIs(b, y);
    assert a == s[..|a|] && x == s[|a| + 1..];
    assert b == s[..|b|] && y == s[|b| + 1..];
  }

  /** Ids without an underscore (UUIDs) give each scope and key its own name. */
  lemma EnvNamesAreInjective(app: string, env: string, key: string, app': string, env': string, key': string)
    requires '_' !in app && '_' !in app' && '_' !in env && '_' !in env'
    requires EnvVaultName(app, env, key) == EnvVaultName(app', env', key')
    ensures app == app' && env == env' && key == key'
  {
    var rest, rest' := env + "_" + key, env' + "_" + key';
    assert EnvVaultName(app, env, key) == "env_" + (app + "_" + rest);
    assert EnvVaultName(app', env', key') == "env_" + (app' + "_" + rest');
    assert app + "_" + rest == EnvVaultName(app, env, key)[4..];
    assert app' + "_" + rest' == EnvVaultName(app', env', key')[4..];
    SplitAtUnderscore(app, rest, app', rest');
    SplitAtUnderscore(env, key, env', key');
  }

  /** An environment's name and a kind's name coincide only for an environment whose id is "kind",
      and then for one key only. */
  lemma ScopesAliasExactly(app: string, env: string, key: string, target: Target, key': string)
    requires '_' !in app && '_' !in env
    ensures EnvVaultName(app, env, key) == KindVaultName(app, target, key') <==>
              env == "kind" && key == KindName(target) + "_" + key'
  {
    var head, tail := "env_" + app + "_", KindName(target) + "_" + key';
    var rest, rest' := env + "_" + key, "kind" + "_" + tail;
    assert EnvVaultName(app, env, key) == head + rest;
    assert KindVaultName(app, target, key') == head + rest';
    SameTail(head, rest, rest');
    if rest == rest' {
      SplitAtUnderscore(env, key, "kind", tail);
    }
  }

  lemma SameTail(head: string, x: string, y: string)
    ensures head + x == head + y <==> x == y
  {
    assert (head + x)[|head|..] == x && (head + y)[|head|..] == y;
  }
}
