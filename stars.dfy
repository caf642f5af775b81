/** Starring the resolved repositories (`thanksDependencies`, index.js lines
    44-78), with the two GraphQL calls taken as given.

    The status query asks for every resolved repository under a positional
    alias `_i`; the module-level dictionary `aliases` remembers which package
    each alias stands for. The answer is an object from alias to
    `{id, viewerHasStarred}`, taken here as its entries in order. Every entry
    not yet starred contributes one `addStar` line to the mutation and is
    recorded in the module-level dictionary `notStarred`, whose keys the report
    then maps back through `aliases` to package names. */
module Stars {
  import opened Wrappers
  import opened Failures
  import opened JsText
  import opened Dependencies
  import opened Registry

  /** One value of the status answer: the repository's node id and whether
      the authenticated user has starred it. */
  datatype Repo = Repo(id: string, viewerHasStarred: bool)

  /** One entry of the status answer; `repo` is `None` where GraphQL answered
      `null` (for instance a repository that does not exist). */
  datatype StatusEntry = StatusEntry(alias: string, repo: Option<Repo>)

  /** How a run that got past the status query ends: nothing to star, or the
      mutation request that was sent and the names reported for it (an error
      when a `notStarred` key has no entry in `aliases`). */
  datatype Outcome =
    | AlreadyStarred
    | StarsSent(mutation: string, report: Result<seq<PackageName>, Error>)

  // ---------------------------------------------------------------------
  // Aliases

  /** The alias of position `i`: the template `_${i}`. */
  function Alias(i: nat): string {
    "_" + NatToString(i)
  }

  /** Distinct positions get distinct aliases, so the alias is a join key. */
  lemma AliasInjective(i: nat, j: nat)
    ensures Alias(i) == Alias(j) ==> i == j
  {
    if Alias(i) == Alias(j) {
      assert NatToString(i) == Alias(i)[1..];
      assert NatToString(j) == Alias(j)[1..];
      NatToStringInjective(i, j);
    }
  }

  // ---------------------------------------------------------------------
  // The status query (index.js lines 46-53)

  /** The query line for the package at position `i`, without its newline. */
  function StatusSelection(i: nat, p: Package): string {
    Alias(i) + ": repository(owner:\"" + p.owner + "\",name:\"" + p.repository + "\"){id,viewerHasStarred}"
  }

  /** The query lines for all packages, position by position. */
  function StatusSelections(pkgs: seq<Package>): (r: seq<string>)
    ensures |r| == |pkgs|
  {
    seq(|pkgs|, i requires 0 <= i < |pkgs| => StatusSelection(i, pkgs[i]))
  }

  function StatusRequest(selections: string): string {
    "query{" + selections + "}"
  }

  function MutationRequest(selections: string): string {
    "mutation{" + selections + "}"
  }

  /** What the status loop assigns into `aliases`: `_i` to `pkgs[i]`, in order. */
  function AliasMap(pkgs: seq<Package>): map<string, Package> {
    if |pkgs| == 0 then map[]
    else AliasMap(pkgs[..|pkgs| - 1])[Alias(|pkgs| - 1) := pkgs[|pkgs| - 1]]
  }

  /** After the status loop, `aliases[_i]` is `pkgs[i]` for every position,
      and nothing else is recorded. */
  lemma {:induction false} AliasMapLookup(pkgs: seq<Package>)
    ensures forall i :: 0 <= i < |pkgs| ==> Alias(i) in AliasMap(pkgs) && AliasMap(pkgs)[Alias(i)] == pkgs[i]
    ensures forall a :: a in AliasMap(pkgs) ==> exists i :: 0 <= i < |pkgs| && a == Alias(i)
  {
    if |pkgs| > 0 {
      var n := |pkgs| - 1;
      var init := pkgs[..n];
      AliasMapLookup(init);
      var m := AliasMap(init);
      assert AliasMap(pkgs) == m[Alias(n) := pkgs[n]];
      forall i | 0 <= i < |pkgs|
        ensures Alias(i) in AliasMap(pkgs) && AliasMap(pkgs)[Alias(i)] == pkgs[i]
      {
        if i < n {
          AliasInjective(i, n);
          assert init[i] == pkgs[i];
        }
      }
      forall a | a in AliasMap(pkgs)
        ensures exists i :: 0 <= i < |pkgs| && a == Alias(i)
      {
        if a != Alias(n) {
          assert a in m;
          var i :| 0 <= i < |init| && a == Alias(i);
          assert 0 <= i < |pkgs| && a == Alias(i);
        }
      }
    }
  }

  /** What one more package adds to the query lines and to `aliases`. */
  lemma StatusStep(pkgs: seq<Package>, i: nat)
    requires i < |pkgs|
    ensures StatusSelections(pkgs[..i + 1]) == StatusSelections(pkgs[..i]) + [StatusSelection(i, pkgs[i])]
    ensures AliasMap(pkgs[..i + 1]) == AliasMap(pkgs[..i])[Alias(i) := pkgs[i]]
  {
    assert pkgs[..i + 1][..i] == pkgs[..i];
  }

  /** Updating an overridden map is overriding with the updated map. */
  lemma OverrideUpdate<K, V>(a: map<K, V>, b: map<K, V>, k: K, v: V)
    ensures (a + b)[k := v] == a + b[k := v]
  {
  }

  /** The status query has exactly one line per package and reads back as
      those lines, provided owners and repository names are single-line. */
  lemma StatusQueryLines(pkgs: seq<Package>)
    requires forall i :: 0 <= i < |pkgs| ==> '\n' !in pkgs[i].owner && '\n' !in pkgs[i].repository
    ensures Split(Unlines(StatusSelections(pkgs)), '\n') == StatusSelections(pkgs) + [""]
  {
    LinesOfUnlines(StatusSelections(pkgs));
  }

  // ---------------------------------------------------------------------
  // The star mutation (index.js lines 54-61)

  /** `!repo.viewerHasStarred` on a non-null entry. */
  predicate Unstarred(e: StatusEntry) {
    e.repo.Some? && !e.repo.value.viewerHasStarred
  }

  /** The position of the first null entry, where `repo.viewerHasStarred`
      throws, or the length of the answer when there is none. */
  function FirstNull(repos: seq<StatusEntry>): (k: nat)
    ensures k <= |repos|
    ensures forall j :: 0 <= j < k ==> repos[j].repo.Some?
    ensures k < |repos| ==> repos[k].repo.None?
  {
    if |repos| == 0 || repos[0].repo.None? then 0
    else
      var k := FirstNull(repos[1..]);
      assert forall j :: 1 <= j < 1 + k ==> repos[j] == repos[1..][j - 1];
      1 + k
  }

  /** The mutation line for the entry at position `j` of the whole answer. */
  function MutationSelection(j: nat, alias: string, repo: Repo): string {
    Alias(j) + ": addStar(input:{clientMutationId:\"" + alias + "\",starrableId:\"" + repo.id + "\"}){clientMutationId}"
  }

  /** The positions of the unstarred entries: exactly those, in increasing order. */
  function UnstarredPositions(repos: seq<StatusEntry>): (ps: seq<nat>)
    ensures forall t :: 0 <= t < |ps| ==> ps[t] < |repos| && Unstarred(repos[ps[t]])
    ensures forall t, u :: 0 <= t < u < |ps| ==> ps[t] < ps[u]
    ensures forall j :: 0 <= j < |repos| && Unstarred(repos[j]) ==> j in ps
  {
    if |repos| == 0 then []
    else
      var n := |repos| - 1;
      assert forall j :: 0 <= j < n ==> repos[..n][j] == repos[j];
      UnstarredPositions(repos[..n]) + (if Unstarred(repos[n]) then [n] else [])
  }

  /** The mutation lines, as the loop appends them over the answer. */
  function MutationSelections(repos: seq<StatusEntry>): seq<string> {
    if |repos| == 0 then []
    else
      var n := |repos| - 1;
      MutationSelections(repos[..n]) +
        (if Unstarred(repos[n]) then [MutationSelection(n, repos[n].alias, repos[n].repo.value)] else [])
  }

  /** The `(alias, repo)` pairs the loop assigns into `notStarred`, in order. */
  function NewlyStarred(repos: seq<StatusEntry>): seq<(string, Repo)> {
    if |repos| == 0 then []
    else
      var n := |repos| - 1;
      NewlyStarred(repos[..n]) + (if Unstarred(repos[n]) then [(repos[n].alias, repos[n].repo.value)] else [])
  }

  /** What one more entry of the answer adds to the lines and to the pairs. */
  lemma AnswerStep(repos: seq<StatusEntry>, i: nat)
    requires i < |repos|
    ensures Unstarred(repos[i]) ==>
              MutationSelections(repos[..i + 1]) ==
              MutationSelections(repos[..i]) + [MutationSelection(i, repos[i].alias, repos[i].repo.value)]
    ensures !Unstarred(repos[i]) ==> MutationSelections(repos[..i + 1]) == MutationSelections(repos[..i])
    ensures var ns := NewlyStarred(repos[..i + 1]);
      Unstarred(repos[i]) ==> |ns| > 0 && ns[..|ns| - 1] == NewlyStarred(repos[..i]) && ns[|ns| - 1] == (repos[i].alias, repos[i].repo.value)
    ensures !Unstarred(repos[i]) ==> NewlyStarred(repos[..i + 1]) == NewlyStarred(repos[..i])
  {
    assert repos[..i + 1][..i] == repos[..i];
  }

  /** One mutation line per unstarred entry, in answer order; the line for the
      entry at position `j` has alias `_j`, the entry's own alias as
      `clientMutationId` and its id as `starrableId`. */
  lemma {:induction false} MutationSelectionsSpec(repos: seq<StatusEntry>)
    ensures var ps := UnstarredPositions(repos);
      MutationSelections(repos) ==
        seq(|ps|, t requires 0 <= t < |ps| => MutationSelection(ps[t], repos[ps[t]].alias, repos[ps[t]].repo.value))
  {
    if |repos| > 0 {
      var n := |repos| - 1;
      MutationSelectionsSpec(repos[..n]);
    }
  }

  lemma MutationSelectionSingleLine(j: nat, alias: string, repo: Repo)
    requires '\n' !in alias && '\n' !in repo.id
    ensures '\n' !in MutationSelection(j, alias, repo)
  {
  }

  /** The mutation has exactly one line per unstarred entry and reads back as
      those lines, provided aliases and ids are single-line. */
  lemma MutationQueryLines(repos: seq<StatusEntry>)
    requires forall j :: 0 <= j < |repos| && Unstarred(repos[j]) ==> '\n' !in repos[j].alias && '\n' !in repos[j].repo.value.id
    ensures |MutationSelections(repos)| == |UnstarredPositions(repos)|
    ensures Split(Unlines(MutationSelections(repos)), '\n') == MutationSelections(repos) + [""]
  {
    MutationSelectionsSpec(repos);
    var ps, ms := UnstarredPositions(repos), MutationSelections(repos);
    forall t | 0 <= t < |ms|
      ensures '\n' !in ms[t]
    {
      var j := ps[t];
      MutationSelectionSingleLine(j, repos[j].alias, repos[j].repo.value);
    }
    LinesOfUnlines(ms);
  }

  /** `notStarred` receives exactly the unstarred entries, in answer order. */
  lemma {:induction false} NewlyStarredSpec(repos: seq<StatusEntry>)
    ensures var ps := UnstarredPositions(repos);
      NewlyStarred(repos) == seq(|ps|, t requires 0 <= t < |ps| => (repos[ps[t]].alias, repos[ps[t]].repo.value))
  {
    if |repos| > 0 {
      var n := |repos| - 1;
      NewlyStarredSpec(repos[..n]);
    }
  }

  /** Nothing is recorded exactly when every entry is starred (or null). */
  lemma NothingToStar(repos: seq<StatusEntry>)
    ensures |NewlyStarred(repos)| == 0 <==> forall j :: 0 <= j < |repos| ==> !Unstarred(repos[j])
  {
  }

  // ---------------------------------------------------------------------
  // `notStarred` as a JavaScript object: string keys in insertion order

  function Keys<V>(d: seq<(string, V)>): (ks: seq<string>)
    ensures |ks| == |d|
  {
    seq(|d|, i requires 0 <= i < |d| => d[i].0)
  }

  /** `d[k] = v`: a new key is appended, an existing one keeps its place and
      gets the new value. */
  function Put<V>(d: seq<(string, V)>, k: string, v: V): (r: seq<(string, V)>)
    ensures k !in Keys(d) ==> r == d + [(k, v)]
    ensures k in Keys(d) ==> exists i :: 0 <= i < |d| && d[i].0 == k && r == d[i := (k, v)]
  {
    if |d| == 0 then [(k, v)]
    else if d[0].0 == k then
      assert Keys(d)[0] == k;
      assert [(k, v)] + d[1..] == d[0 := (k, v)];
      [(k, v)] + d[1..]
    else
      var r := Put(d[1..], k, v);
      assert Keys(d) == [d[0].0] + Keys(d[1..]);
      assert k in Keys(d) ==> exists i :: 0 <= i < |d| && d[i].0 == k && [d[0]] + r == d[i := (k, v)] by {
        if k in Keys(d) {
          var i :| 0 <= i < |d[1..]| && d[1..][i].0 == k && r == d[1..][i := (k, v)];
          assert [d[0]] + r == d[i + 1 := (k, v)];
        }
      }
      [d[0]] + r
  }

  /** Assignment changes the keys as it does for any object (compare
      `Dependencies.AssignKey`), so the keys of `notStarred` stay distinct. */
  lemma PutKeys<V>(d: seq<(string, V)>, k: string, v: V)
    ensures Keys(Put(d, k, v)) == AssignKey(Keys(d), k)
    ensures NoDup(Keys(d)) ==> NoDup(Keys(Put(d, k, v)))
  {
    var r := Put(d, k, v);
    if k in Keys(d) {
      var i :| 0 <= i < |d| && d[i].0 == k && r == d[i := (k, v)];
      assert Keys(r) == Keys(d);
    } else {
      KeysAppend(d, [(k, v)]);
      assert Keys(r) == Keys(d) + [k];
    }
  }

  /** Assigning the pairs `es` one after the other. */
  function PutAll<V>(d: seq<(string, V)>, es: seq<(string, V)>): seq<(string, V)> {
    if |es| == 0 then d
    else Put(PutAll(d, es[..|es| - 1]), es[|es| - 1].0, es[|es| - 1].1)
  }

  lemma KeysAppend<V>(d: seq<(string, V)>, e: seq<(string, V)>)
    ensures Keys(d + e) == Keys(d) + Keys(e)
  {
  }

  /** However many pairs are assigned, the keys stay distinct. */
  lemma {:induction false} PutAllKeys<V>(d: seq<(string, V)>, es: seq<(string, V)>)
    ensures NoDup(Keys(d)) ==> NoDup(Keys(PutAll(d, es)))
  {
    if |es| > 0 && NoDup(Keys(d)) {
      var n := |es| - 1;
      PutAllKeys(d, es[..n]);
      PutKeys(PutAll(d, es[..n]), es[n].0, es[n].1);
    }
  }

  /** Assigning pairs whose keys are new and distinct appends them in order. */
  lemma {:induction false} PutAllFresh<V>(d: seq<(string, V)>, es: seq<(string, V)>)
    requires NoDup(Keys(d) + Keys(es))
    ensures PutAll(d, es) == d + es
  {
    if |es| > 0 {
      var n := |es| - 1;
      var init := es[..n];
      KeysAppend(init, [es[n]]);
      assert es == init + [es[n]];
      var all := Keys(d) + Keys(es);
      assert Keys(d) + Keys(init) == all[..|d| + n];
      assert NoDup(Keys(d) + Keys(init));
      PutAllFresh(d, init);
      KeysAppend(d, init);
      assert es[n].0 == all[|d| + n];
      assert es[n].0 !in Keys(d + init);
    }
  }

  /** What one more entry of the answer does to `notStarred`. */
  lemma NotStarredStep(d: seq<(string, Repo)>, repos: seq<StatusEntry>, i: nat)
    requires i < |repos|
    ensures Unstarred(repos[i]) ==>
              PutAll(d, NewlyStarred(repos[..i + 1])) ==
              Put(PutAll(d, NewlyStarred(repos[..i])), repos[i].alias, repos[i].repo.value)
    ensures !Unstarred(repos[i]) ==> PutAll(d, NewlyStarred(repos[..i + 1])) == PutAll(d, NewlyStarred(repos[..i]))
  {
    AnswerStep(repos, i);
  }

  /** When the answer's aliases are distinct, the keys recorded are distinct. */
  lemma NewlyStarredKeysDistinct(repos: seq<StatusEntry>)
    requires forall i, j :: 0 <= i < j < |repos| ==> repos[i].alias != repos[j].alias
    ensures NoDup(Keys(NewlyStarred(repos)))
  {
  }

  // ---------------------------------------------------------------------
  // The report (index.js lines 63-75)

  /** `aliases[alias].name` for every key of `notStarred`, in order; the
      first key missing from `aliases` throws. */
  function ReportNames(ns: seq<(string, Repo)>, aliases: map<string, Package>): (r: Result<seq<PackageName>, Error>)
    ensures r.Ok? <==> forall t :: 0 <= t < |ns| ==> ns[t].0 in aliases
    ensures r.Ok? ==> |r.value| == |ns| && forall t :: 0 <= t < |ns| ==> r.value[t] == aliases[ns[t].0].name
    ensures r.Err? ==> exists t :: 0 <= t < |ns| && ns[t].0 !in aliases && r.error == UnknownAlias(ns[t].0) &&
                                   forall u :: 0 <= u < t ==> ns[u].0 in aliases
  {
    if |ns| == 0 then Ok([])
    else if ns[0].0 !in aliases then Err(UnknownAlias(ns[0].0))
    else
      assert forall t :: 1 <= t < |ns| ==> ns[t] == ns[1..][t - 1];
      match ReportNames(ns[1..], aliases)
      case Err(e) => Err(e)
      case Ok(names) => Ok([aliases[ns[0].0].name] + names)
  }

  /** The report succeeds with the given names when each key is known and
      names its package. */
  lemma ReportNamesOk(ns: seq<(string, Repo)>, aliases: map<string, Package>, names: seq<PackageName>)
    requires |names| == |ns|
    requires forall t :: 0 <= t < |ns| ==> ns[t].0 in aliases && aliases[ns[t].0].name == names[t]
    ensures ReportNames(ns, aliases) == Ok(names)
  {
    var r := ReportNames(ns, aliases);
    assert r.Ok?;
    assert r.value == names;
  }

  // ---------------------------------------------------------------------
  // The alias scheme joins the two sides

  /** The status answer answers the query: one entry per package, under the
      aliases `_0`, `_1`, … in query order. */
  predicate AnswersQuery(pkgs: seq<Package>, repos: seq<StatusEntry>) {
    |repos| == |pkgs| && forall j :: 0 <= j < |repos| ==> repos[j].alias == Alias(j)
  }

  /** Aliases of a matching answer are distinct. */
  lemma AnswerAliasesDistinct(pkgs: seq<Package>, repos: seq<StatusEntry>)
    requires AnswersQuery(pkgs, repos)
    ensures forall i, j :: 0 <= i < j < |repos| ==> repos[i].alias != repos[j].alias
  {
    forall i, j | 0 <= i < j < |repos|
      ensures repos[i].alias != repos[j].alias
    {
      AliasInjective(i, j);
    }
  }

  /** Starting from an empty `notStarred`, a matching answer leaves in it
      exactly the unstarred entries, in answer order. */
  lemma NotStarredOfAnswer(pkgs: seq<Package>, repos: seq<StatusEntry>)
    requires AnswersQuery(pkgs, repos)
    ensures PutAll([], NewlyStarred(repos)) == NewlyStarred(repos)
  {
    AnswerAliasesDistinct(pkgs, repos);
    NewlyStarredKeysDistinct(repos);
    PutAllFresh([], NewlyStarred(repos));
  }

  /** In a matching answer the alias of every mutation line is also its
      `clientMutationId`: the mutation side uses the query's aliases. */
  lemma MutationAliasesOfAnswer(pkgs: seq<Package>, repos: seq<StatusEntry>)
    requires AnswersQuery(pkgs, repos)
    ensures var ps := UnstarredPositions(repos);
      MutationSelections(repos) ==
        seq(|ps|, t requires 0 <= t < |ps| => MutationSelection(ps[t], Alias(ps[t]), repos[ps[t]].repo.value))
  {
    MutationSelectionsSpec(repos);
  }

  /** The report on a matching answer names exactly the packages whose
      repositories were unstarred, in order. */
  lemma ReportOfAnswer(pkgs: seq<Package>, repos: seq<StatusEntry>)
    requires AnswersQuery(pkgs, repos)
    ensures var ps := UnstarredPositions(repos);
      ReportNames(NewlyStarred(repos), AliasMap(pkgs)) == Ok(seq(|ps|, t requires 0 <= t < |ps| => pkgs[ps[t]].name))
  {
    var ps := UnstarredPositions(repos);
    NewlyStarredSpec(repos);
    AliasMapLookup(pkgs);
    var ns := NewlyStarred(repos);
    var m := AliasMap(pkgs);
    var names := seq(|ps|, t requires 0 <= t < |ps| => pkgs[ps[t]].name);
    forall t | 0 <= t < |ns|
      ensures ns[t].0 in m && m[ns[t].0].name == names[t]
    {
      assert ns[t].0 == Alias(ps[t]);
    }
    ReportNamesOk(ns, m, names);
  }

  /** The decision of a fresh run on a matching answer: nothing is recorded,
      so the run ends "already starred", exactly when every entry is starred
      (or null); otherwise `k` unstarred entries give `k` recorded pairs, `k`
      mutation lines and the `k` package names in answer order. */
  lemma FreshRunDecision(pkgs: seq<Package>, repos: seq<StatusEntry>)
    requires AnswersQuery(pkgs, repos)
    ensures var ns := PutAll([], NewlyStarred(repos));
      |ns| == 0 <==> forall j :: 0 <= j < |repos| ==> !Unstarred(repos[j])
    ensures var ps, ns := UnstarredPositions(repos), PutAll([], NewlyStarred(repos));
      |ns| == |ps| && |MutationSelections(repos)| == |ps| &&
      ReportNames(ns, map[] + AliasMap(pkgs)) == Ok(seq(|ps|, t requires 0 <= t < |ps| => pkgs[ps[t]].name))
  {
    NotStarredOfAnswer(pkgs, repos);
    NewlyStarredSpec(repos);
    NothingToStar(repos);
    MutationSelectionsSpec(repos);
    ReportOfAnswer(pkgs, repos);
    assert map[] + AliasMap(pkgs) == AliasMap(pkgs);
  }

  // ---------------------------------------------------------------------
  // One run, with the module-level dictionaries as the state of a session

  class Session {
    /** `aliases` (index.js line 9): status alias to the package it stands for. */
    var aliases: map<string, Package>
    /** `notStarred` (index.js line 10): status alias to its answer, in insertion order. */
    var notStarred: seq<(string, Repo)>

    constructor ()
      ensures aliases == map[] && notStarred == []
    {
      aliases := map[];
      notStarred := [];
    }

    /** The first `forEach` (index.js lines 46-51): one query line per
        package, and `aliases[_i] = pkgs[i]`. */
    method BuildStatusQuery(pkgs: seq<Package>) returns (query: string)
      modifies this
      ensures query == Unlines(StatusSelections(pkgs))
      ensures aliases == old(aliases) + AliasMap(pkgs)
      ensures notStarred == old(notStarred)
    {
      query := "";
      var i := 0;
      while i < |pkgs|
        invariant 0 <= i <= |pkgs|
        invariant query == Unlines(StatusSelections(pkgs[..i]))
        invariant aliases == old(aliases) + AliasMap(pkgs[..i])
        invariant notStarred == old(notStarred)
      {
        StatusStep(pkgs, i);
        OverrideUpdate(old(aliases), AliasMap(pkgs[..i]), Alias(i), pkgs[i]);
        UnlinesSnoc(StatusSelections(pkgs[..i]), StatusSelection(i, pkgs[i]));
        query := query + StatusSelection(i, pkgs[i]) + "\n";
        aliases := aliases[Alias(i) := pkgs[i]];
        i := i + 1;
      }
      assert pkgs[..|pkgs|] == pkgs;
    }

    /** The second `forEach` (index.js lines 54-61): one mutation line per
        unstarred entry, and `notStarred[alias] = repo`. A null entry throws
        after the entries before it have been processed. */
    method BuildStarMutation(repos: seq<StatusEntry>) returns (r: Result<string, Error>)
      modifies this
      ensures aliases == old(aliases)
      ensures notStarred == PutAll(old(notStarred), NewlyStarred(repos[..FirstNull(repos)]))
      ensures FirstNull(repos) < |repos| ==> r == Err(NullRepository(repos[FirstNull(repos)].alias))
      ensures FirstNull(repos) == |repos| ==> r == Ok(Unlines(MutationSelections(repos)))
    {
      var query := "";
      var i := 0;
      while i < |repos|
        invariant 0 <= i <= |repos|
        invariant forall j :: 0 <= j < i ==> repos[j].repo.Some?
        invariant query == Unlines(MutationSelections(repos[..i]))
        invariant notStarred == PutAll(old(notStarred), NewlyStarred(repos[..i]))
        invariant aliases == old(aliases)
      {
        if repos[i].repo.None? {
          return Err(NullRepository(repos[i].alias));
        }
        var repo := repos[i].repo.value;
        AnswerStep(repos, i);
        NotStarredStep(old(notStarred), repos, i);
        if !repo.viewerHasStarred {
          UnlinesSnoc(MutationSelections(repos[..i]), MutationSelection(i, repos[i].alias, repo));
          query := query + MutationSelection(i, repos[i].alias, repo) + "\n";
          notStarred := Put(notStarred, repos[i].alias, repo);
        }
        i := i + 1;
      }
      assert repos[..|repos|] == repos;
      return Ok(query);
    }

    /** The empty check and the report (index.js lines 63-75): nothing to do
        when `notStarred` is empty; otherwise the mutation is sent and every
        key of `notStarred` is reported as `aliases[alias].name`. */
    method Report(mutation: string) returns (o: Outcome)
      ensures o == AlreadyStarred <==> |notStarred| == 0
      ensures o != AlreadyStarred ==> o == StarsSent(MutationRequest(mutation), ReportNames(notStarred, aliases))
    {
      if |notStarred| <= 0 {
        return AlreadyStarred;
      }
      var names: seq<PackageName> := [];
      var t := 0;
      while t < |notStarred|
        invariant 0 <= t <= |notStarred|
        invariant forall u :: 0 <= u < t ==> notStarred[u].0 in aliases
        invariant |names| == t
        invariant forall u :: 0 <= u < t ==> names[u] == aliases[notStarred[u].0].name
      {
        var alias := notStarred[t].0;
        if alias !in aliases {
          return StarsSent(MutationRequest(mutation), Err(UnknownAlias(alias)));
        }
        names := names + [aliases[alias].name];
        t := t + 1;
      }
      var report := ReportNames(notStarred, aliases);
      assert report.Ok?;
      assert report.value == names;
      return StarsSent(MutationRequest(mutation), Ok(names));
    }

    /** The whole run: merge the dependency names, resolve them through the
        registry, query star status, star what is not starred and report.
        `registry` and `github` stand for the two services. */
    method ThanksDependencies(dependencies: seq<PackageName>, devDependencies: seq<PackageName>,
                              registry: seq<PackageName> -> seq<RegistryEntry>,
                              github: string -> Option<seq<StatusEntry>>)
      returns (r: Result<Outcome, Error>)
      modifies this
      ensures var resolved := Resolve(registry(MergeDependencies(dependencies, devDependencies)));
        resolved.Err? ==> r == Err(resolved.error) && aliases == old(aliases) && notStarred == old(notStarred)
      ensures var resolved := Resolve(registry(MergeDependencies(dependencies, devDependencies)));
        resolved.Ok? ==>
          aliases == old(aliases) + AliasMap(resolved.value) &&
          match github(StatusRequest(Unlines(StatusSelections(resolved.value))))
          case None => r == Err(MissingStatusData) && notStarred == old(notStarred)
          case Some(repos) =>
            notStarred == PutAll(old(notStarred), NewlyStarred(repos[..FirstNull(repos)])) &&
            (FirstNull(repos) < |repos| ==> r == Err(NullRepository(repos[FirstNull(repos)].alias))) &&
            (FirstNull(repos) == |repos| ==>
               r == Ok(if |notStarred| == 0 then AlreadyStarred
                       else StarsSent(MutationRequest(Unlines(MutationSelections(repos))), ReportNames(notStarred, aliases))))
    {
      var allDependencies := MergeDependencies(dependencies, devDependencies);
      var resolved := Resolve(registry(allDependencies));
      if resolved.Err? {
        return Err(resolved.error);
      }
      var pkgs := resolved.value;
      var query := BuildStatusQuery(pkgs);
      var answer := github(StatusRequest(query));
      if answer.None? {
        return Err(MissingStatusData);
      }
      var mutation := BuildStarMutation(answer.value);
      if mutation.Err? {
        return Err(mutation.error);
      }
      var o := Report(mutation.value);
      return Ok(o);
    }
  }
}
