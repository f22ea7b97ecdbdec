/** The trees that deployments show in active, and when their versions go
    back. Everything here is about values. */
module Shown {
  import opened Trees
  import opened Packages
  import opened Recovery

  /** What is there in the end. */
  function End(shown: seq<Tree>): Tree {
    if shown == [] then NOTHING else shown[|shown| - 1]
  }

  /** The new tree was shown and is not there in the end. By `Commit` that takes
      a second rename that reported an error although it landed. */
  ghost predicate TakenBack(package: Package, shown: seq<Tree>) {
    PackageTree(package) in shown && End(shown) != PackageTree(package)
  }

  predicate Absent(shown: seq<Tree>) {
    forall t :: t in shown ==> t == NOTHING
  }

  /** A package that passes the checks made before anything is replaced. */
  ghost predicate Replaces(formats: Formats, package: Package) {
    ValidPackage(formats, package) && formats.rank(package.version).Some?
  }

  /** Nothing is shown but the tree in use and the package's own, and that only
      if the package passed its checks. */
  ghost predicate OwnTrees(formats: Formats, package: Package, former: Tree, shown: seq<Tree>, holder: Tree) {
    var incoming := PackageTree(package);
    || (holder == former && forall t :: t in shown ==> t in {NOTHING, former})
    || (Replaces(formats, package) && holder in {former, incoming}
        && forall t :: t in shown ==> t in {NOTHING, former, incoming})
  }

  /** What one deployment shows, between the tree in use before it and the one
      after it. Versions go back exactly if the new tree was taken back and the
      old one restored; the tree in use is shown before any other. */
  ghost predicate Between(formats: Formats, package: Package, former: Tree, shown: seq<Tree>, holder: Tree) {
    var incoming := PackageTree(package);
    && shown != [] && Forward(formats, former, holder) && OwnTrees(formats, package, former, shown, holder)
    && shown[0] in {NOTHING, former} && End(shown) in {NOTHING, holder}
    && (Rising(formats, shown) <==> !(TakenBack(package, shown) && End(shown) != NOTHING))
    && (former != NOTHING ==> former in shown || Absent(shown))
    && (Absent(shown) ==> holder == former)
    && (forall t :: t in shown && t != NOTHING ==> former == NOTHING || Forward(formats, former, t))
    && (forall t :: t in shown && t != NOTHING ==>
          Forward(formats, t, holder) || (TakenBack(package, shown) && t == incoming))
    && (TakenBack(package, shown) ==>
          && holder == former && former != incoming && incoming != NOTHING
          && (former != NOTHING ==> Newer(formats, former, incoming)))
  }

  lemma NotEmpty(formats: Formats, package: Package, former: Tree, shown: seq<Tree>, holder: Tree)
    requires Between(formats, package, former, shown, holder)
    ensures shown != []
  {
  }

  // ----- One replacement

  lemma LaterRetreat(first: seq<Tree>, rest: seq<Tree>, base: Tree, incoming: Tree)
    requires incoming !in first
    ensures Retreats(first + rest, base, incoming) <==> Retreats(rest, base, incoming)
  {
    var shown := first + rest;
    if base != NOTHING {
      if i, j :| 0 <= i < j < |shown| && shown[i] == incoming && shown[j] == base {
        assert i >= |first|;
        assert rest[i - |first|] == incoming && rest[j - |first|] == base;
      }
      if i, j :| 0 <= i < j < |rest| && rest[i] == incoming && rest[j] == base {
        assert shown[|first| + i] == incoming && shown[|first| + j] == base;
      }
    }
  }

  lemma ReplacementShows(formats: Formats, package: Package, shown: seq<Tree>, base: Tree, holder: Tree)
    requires shown != [] && shown[0] in {NOTHING, base} && End(shown) in {NOTHING, holder} && base in shown
    requires Replaces(formats, package) && base != PackageTree(package) && PackageTree(package) != NOTHING
    requires base == NOTHING || Newer(formats, base, PackageTree(package))
    requires forall t :: t in shown ==> t in {NOTHING, base, PackageTree(package)}
    requires holder in {base, PackageTree(package)}
    requires PackageTree(package) in shown <==> TakenBack(package, shown) || holder == PackageTree(package)
    requires TakenBack(package, shown) ==> holder == base
    requires Retreats(shown, base, PackageTree(package)) <==>
      TakenBack(package, shown) && End(shown) == base && base != NOTHING
    ensures Between(formats, package, base, shown, holder)
  {
    hide PackageTree, Newer, Replaces;
    RisingUnlessRetreat(formats, shown, base, PackageTree(package));
  }

  // ----- Many deployments

  ghost predicate Follows(formats: Formats, packages: seq<Package>, holders: seq<Tree>, runs: seq<seq<Tree>>) {
    && |runs| == |packages| && |holders| == |packages| + 1
    && forall i :: 0 <= i < |packages| ==> Between(formats, packages[i], holders[i], runs[i], holders[i + 1])
  }

  /** The tree in use only ever moves forward. */
  lemma {:induction false} HoldersRise(formats: Formats, packages: seq<Package>, holders: seq<Tree>,
                                       runs: seq<seq<Tree>>, i: nat, j: nat)
    requires Follows(formats, packages, holders, runs) && i <= j <= |packages|
    ensures Forward(formats, holders[i], holders[j])
    decreases j
  {
    hide Newer, TakenBack;
    if i < j {
      HoldersRise(formats, packages, holders, runs, i, j - 1);
      assert Between(formats, packages[j - 1], holders[j - 1], runs[j - 1], holders[j]);
      ForwardTransitive(formats, holders[i], holders[j - 1], holders[j]);
    }
  }

  /** So do the trees in active at the ends of deployments, where there are any. */
  lemma EndsRise(formats: Formats, packages: seq<Package>, holders: seq<Tree>, runs: seq<seq<Tree>>, i: nat, j: nat)
    requires Follows(formats, packages, holders, runs) && i <= j < |packages|
    ensures
      var end, later := End(runs[i]), End(runs[j]);
      end == NOTHING || later == NOTHING || Forward(formats, end, later)
  {
    hide Newer, TakenBack, Forward;
    assert Between(formats, packages[i], holders[i], runs[i], holders[i + 1]);
    assert Between(formats, packages[j], holders[j], runs[j], holders[j + 1]);
    HoldersRise(formats, packages, holders, runs, i + 1, j + 1);
  }

  /** All trees shown, in order. */
  ghost function Flat(runs: seq<seq<Tree>>): seq<Tree> {
    if runs == [] then [] else Flat(runs[..|runs| - 1]) + runs[|runs| - 1]
  }

  /** No tree of one run is followed by an older one of a later run. */
  ghost predicate RisesAcross(formats: Formats, runs: seq<seq<Tree>>) {
    forall i, j, t, u :: 0 <= i < j < |runs| && t in runs[i] && u in runs[j] && t != NOTHING && u != NOTHING ==>
      Forward(formats, t, u)
  }

  lemma RisingConcat(formats: Formats, a: seq<Tree>, b: seq<Tree>)
    ensures Rising(formats, a + b) <==>
      && Rising(formats, a) && Rising(formats, b)
      && forall t, u :: t in a && u in b && t != NOTHING && u != NOTHING ==> Forward(formats, t, u)
  {
    hide Forward;
    var all := a + b;
    if Rising(formats, all) {
      forall i, j | 0 <= i < j < |b| && b[i] != NOTHING && b[j] != NOTHING
        ensures Forward(formats, b[i], b[j])
      {
        assert all[|a| + i] == b[i] && all[|a| + j] == b[j];
      }
      forall t, u | t in a && u in b && t != NOTHING && u != NOTHING
        ensures Forward(formats, t, u)
      {
        var i :| 0 <= i < |a| && a[i] == t;
        var j :| 0 <= j < |b| && b[j] == u;
        assert all[i] == t && all[|a| + j] == u;
      }
      forall i, j | 0 <= i < j < |a| && a[i] != NOTHING && a[j] != NOTHING
        ensures Forward(formats, a[i], a[j])
      {
        assert all[i] == a[i] && all[j] == a[j];
      }
    }
  }

  lemma {:induction false} FlatHolds(runs: seq<seq<Tree>>)
    ensures forall t :: t in Flat(runs) <==> exists i :: 0 <= i < |runs| && t in runs[i]
  {
    if runs != [] {
      FlatHolds(runs[..|runs| - 1]);
    }
  }

  lemma {:induction false} RisingParts(formats: Formats, runs: seq<seq<Tree>>)
    ensures Rising(formats, Flat(runs)) <==>
      RisesAcross(formats, runs) && forall i :: 0 <= i < |runs| ==> Rising(formats, runs[i])
  {
    hide Forward;
    if runs != [] {
      var front, last := runs[..|runs| - 1], runs[|runs| - 1];
      RisingParts(formats, front);
      RisingConcat(formats, Flat(front), last);
      FlatHolds(front);
      hide Rising, Flat;
      assert RisesAcross(formats, runs) <==> (
        && RisesAcross(formats, front)
        && forall t, u :: t in Flat(front) && u in last && t != NOTHING && u != NOTHING ==> Forward(formats, t, u));
    }
  }

  /** A new tree that was taken back does no harm: nothing is shown after it if
      it was to replace another, and nothing older if it was not. */
  ghost predicate Harmless(formats: Formats, packages: seq<Package>, holders: seq<Tree>, runs: seq<seq<Tree>>, i: nat)
    requires Follows(formats, packages, holders, runs) && i < |runs|
  {
    if holders[i] != NOTHING then
      End(runs[i]) == NOTHING && forall j :: i < j < |runs| ==> Absent(runs[j])
    else
      forall j, t :: i < j < |runs| && t in runs[j] && t != NOTHING ==> Forward(formats, PackageTree(packages[i]), t)
  }

  /** Over any number of deployments the version in active never goes back if and
      only if no new tree that was taken back does harm. */
  lemma RisesExactly(formats: Formats, packages: seq<Package>, holders: seq<Tree>, runs: seq<seq<Tree>>)
    requires Follows(formats, packages, holders, runs)
    ensures Rising(formats, Flat(runs)) <==>
      forall i :: 0 <= i < |runs| && TakenBack(packages[i], runs[i]) ==> Harmless(formats, packages, holders, runs, i)
  {
    hide Rising, Forward, Newer, TakenBack, Harmless, Flat, RisesAcross;
    RisingParts(formats, runs);
    if Rising(formats, Flat(runs)) {
      forall i | 0 <= i < |runs| && TakenBack(packages[i], runs[i])
        ensures Harmless(formats, packages, holders, runs, i)
      {
        RisingIsHarmless(formats, packages, holders, runs, i);
      }
    }
    if forall i :: 0 <= i < |runs| && TakenBack(packages[i], runs[i]) ==>
      Harmless(formats, packages, holders, runs, i) {
      HarmlessRises(formats, packages, holders, runs);
    }
  }

  /** One package may follow another: it is the same or has a newer version. */
  ghost predicate InOrder(formats: Formats, earlier: Package, later: Package)
    requires Replaces(formats, earlier) && Replaces(formats, later)
  {
    || PackageTree(later) == PackageTree(earlier)
    || formats.rank(earlier.version).value < formats.rank(later.version).value
  }

  /** What a caller can check beforehand: an installation that is taken back does
      no harm if all later packages that pass their checks may follow it. */
  lemma InOrderIsHarmless(formats: Formats, packages: seq<Package>, holders: seq<Tree>, runs: seq<seq<Tree>>, i: nat)
    requires Follows(formats, packages, holders, runs) && i < |runs| && TakenBack(packages[i], runs[i])
    requires holders[i] == NOTHING
    requires Replaces(formats, packages[i]) ==> forall k :: i < k < |packages| && Replaces(formats, packages[k]) ==>
      InOrder(formats, packages[i], packages[k])
    ensures Harmless(formats, packages, holders, runs, i)
  {
    hide Rising, Newer, PackageTree, Replaces, InOrder, Forward;
    var incoming := PackageTree(packages[i]);
    OwnPackage(formats, packages[i], holders[i], runs[i], holders[i + 1]);
    forall j, t | i < j < |runs| && t in runs[j] && t != NOTHING
      ensures Forward(formats, incoming, t)
    {
      HoldersInOrder(formats, packages, holders, runs, i, j);
      assert Between(formats, packages[j], holders[j], runs[j], holders[j + 1]);
      InOrderForward(formats, packages, i, j);
    }
  }

  lemma OwnPackage(formats: Formats, package: Package, former: Tree, shown: seq<Tree>, holder: Tree)
    requires Between(formats, package, former, shown, holder) && TakenBack(package, shown)
    ensures Replaces(formats, package) && holder == former
  {
    hide Rising, Newer, Replaces, Forward;
  }

  lemma InOrderForward(formats: Formats, packages: seq<Package>, i: nat, k: nat)
    requires i < k < |packages| && Replaces(formats, packages[i])
    requires Replaces(formats, packages[k]) ==> InOrder(formats, packages[i], packages[k])
    ensures Replaces(formats, packages[k]) ==>
      Forward(formats, PackageTree(packages[i]), PackageTree(packages[k]))
  {
    hide PackageTree, ValidPackage;
    if Replaces(formats, packages[k]) {
      PackageVersion(formats, packages[i]);
      PackageVersion(formats, packages[k]);
      assert VersionOf(formats, NOTHING).None?;
    }
  }

  /** The tree in use after an installation that was taken back is of a later
      package. */
  lemma {:induction false} HoldersInOrder(formats: Formats, packages: seq<Package>, holders: seq<Tree>,
                                          runs: seq<seq<Tree>>, i: nat, j: nat)
    requires Follows(formats, packages, holders, runs) && i < j <= |packages|
    requires TakenBack(packages[i], runs[i]) && holders[i] == NOTHING && Replaces(formats, packages[i])
    requires forall k :: i < k < |packages| && Replaces(formats, packages[k]) ==>
      InOrder(formats, packages[i], packages[k])
    ensures holders[j] == NOTHING || Forward(formats, PackageTree(packages[i]), holders[j])
    decreases j
  {
    hide Rising, Newer, PackageTree, Replaces, InOrder, Forward;
    if j == i + 1 {
      OwnPackage(formats, packages[i], holders[i], runs[i], holders[j]);
    } else {
      HoldersInOrder(formats, packages, holders, runs, i, j - 1);
      InOrderForward(formats, packages, i, j - 1);
      assert Between(formats, packages[j - 1], holders[j - 1], runs[j - 1], holders[j]);
    }
  }

  /** So if only installations are taken back, and all packages after such a one
      may follow it, the version in active never goes back. */
  lemma RisesInOrder(formats: Formats, packages: seq<Package>, holders: seq<Tree>, runs: seq<seq<Tree>>)
    requires Follows(formats, packages, holders, runs)
    requires forall i :: 0 <= i < |runs| && TakenBack(packages[i], runs[i]) ==>
      && holders[i] == NOTHING
      && (Replaces(formats, packages[i]) ==> forall k :: i < k < |packages| && Replaces(formats, packages[k]) ==>
            InOrder(formats, packages[i], packages[k]))
    ensures Rising(formats, Flat(runs))
  {
    hide Rising, Flat, TakenBack, Harmless, Between, InOrder, Replaces;
    forall i | 0 <= i < |runs| && TakenBack(packages[i], runs[i])
      ensures Harmless(formats, packages, holders, runs, i)
    {
      InOrderIsHarmless(formats, packages, holders, runs, i);
    }
    RisesExactly(formats, packages, holders, runs);
  }

  lemma RisingIsHarmless(formats: Formats, packages: seq<Package>, holders: seq<Tree>, runs: seq<seq<Tree>>, i: nat)
    requires Follows(formats, packages, holders, runs) && i < |runs| && TakenBack(packages[i], runs[i])
    requires RisesAcross(formats, runs) && Rising(formats, runs[i])
    ensures Harmless(formats, packages, holders, runs, i)
  {
    hide Rising, Forward, Newer, PackageTree;
    assert Between(formats, packages[i], holders[i], runs[i], holders[i + 1]);
    var incoming := PackageTree(packages[i]);
    assert incoming in runs[i];
    if holders[i] != NOTHING {
      forall j | i < j < |runs|
        ensures Absent(runs[j])
      {
        NothingShownAfter(formats, packages, holders, runs, i, j);
      }
    }
  }

  /** After an update was taken back, the old tree is the first to be shown. */
  lemma {:induction false} NothingShownAfter(formats: Formats, packages: seq<Package>, holders: seq<Tree>,
                                             runs: seq<seq<Tree>>, i: nat, j: nat)
    requires Follows(formats, packages, holders, runs) && i < j < |runs| && TakenBack(packages[i], runs[i])
    requires RisesAcross(formats, runs) && holders[i] != NOTHING
    ensures Absent(runs[j]) && holders[j + 1] == holders[i]
    decreases j
  {
    hide Rising, PackageTree;
    assert Between(formats, packages[i], holders[i], runs[i], holders[i + 1]);
    assert Between(formats, packages[j], holders[j], runs[j], holders[j + 1]);
    if j > i + 1 {
      NothingShownAfter(formats, packages, holders, runs, i, j - 1);
    }
    var incoming := PackageTree(packages[i]);
    assert incoming in runs[i] && !Forward(formats, incoming, holders[i]);
  }

  lemma HarmlessRises(formats: Formats, packages: seq<Package>, holders: seq<Tree>, runs: seq<seq<Tree>>)
    requires Follows(formats, packages, holders, runs)
    requires forall i :: 0 <= i < |runs| && TakenBack(packages[i], runs[i]) ==>
      Harmless(formats, packages, holders, runs, i)
    ensures RisesAcross(formats, runs)
    ensures forall i :: 0 <= i < |runs| ==> Rising(formats, runs[i])
  {
    hide Rising, Forward, Newer, PackageTree;
    forall i | 0 <= i < |runs|
      ensures Rising(formats, runs[i])
    {
      assert Between(formats, packages[i], holders[i], runs[i], holders[i + 1]);
    }
    forall i, j, t, u | 0 <= i < j < |runs| && t in runs[i] && u in runs[j] && t != NOTHING && u != NOTHING
      ensures Forward(formats, t, u)
    {
      LaterIsNotOlder(formats, packages, holders, runs, i, j, t, u);
    }
  }

  lemma LaterIsNotOlder(formats: Formats, packages: seq<Package>, holders: seq<Tree>, runs: seq<seq<Tree>>,
                        i: nat, j: nat, t: Tree, u: Tree)
    requires Follows(formats, packages, holders, runs) && i < j < |runs|
    requires t in runs[i] && u in runs[j] && t != NOTHING && u != NOTHING
    requires TakenBack(packages[i], runs[i]) ==> Harmless(formats, packages, holders, runs, i)
    ensures Forward(formats, t, u)
  {
    hide Rising, Newer, PackageTree;
    assert Between(formats, packages[i], holders[i], runs[i], holders[i + 1]);
    assert Between(formats, packages[j], holders[j], runs[j], holders[j + 1]);
    HoldersRise(formats, packages, holders, runs, i + 1, j);
    if Forward(formats, t, holders[i + 1]) {
      ForwardTransitive(formats, t, holders[i + 1], holders[j]);
      ForwardTransitive(formats, t, holders[j], u);
    }
  }
}
