/**
 * The content-upgrade registry of H5P.InteractiveBook: for major version 1,
 * upgrade steps keyed by the minor version they bring content to. Content
 * at minor version `from` going to minor version `to` goes through every
 * registered step above `from` up to `to`, in increasing order, each step
 * handing its parameters and extras to the next.
 */
module Upgrades {
  import opened Json
  import opened Book
  import opened SubContentId
  import CoverUpgrade
  import TableUpgrade

  /** The two registered steps. */
  datatype Step = CoverMedium | TableBorders

  /** The steps of major version 1, keyed by the minor version they bring content to. */
  const Steps: map<nat, Step> := map[6 := CoverMedium, 8 := TableBorders]

  /** `H5PUpgrades['H5P.InteractiveBook']`: major version to minor version to step. */
  const Registry: map<string, map<nat, map<nat, Step>>> := map["H5P.InteractiveBook" := map[1 := Steps]]

  /** The minor versions with a step for major version 1. */
  function Minors(): (keys: set<nat>)
    ensures keys == {6, 8} && keys == Steps.Keys
  {
    Registry["H5P.InteractiveBook"][1].Keys
  }

  /** One step applied; `rs` are the random hex digits that step 6 draws. */
  function Apply(step: Step, parameters: Value, extras: Value, rs: seq<Nibble>): Outcome
    requires |rs| == RandomCount
  {
    match step
    case CoverMedium => CoverUpgrade.Upgrade(parameters, extras, rs)
    case TableBorders => TableUpgrade.Upgrade(parameters, extras)
  }

  /** The keys in `keys` above `from` and at most `to`, in increasing order. */
  function Pending(keys: set<nat>, from: nat, to: nat): (r: seq<nat>)
    decreases if from < to then to - from else 0
  {
    if from >= to then []
    else (if from + 1 in keys then [from + 1] else []) + Pending(keys, from + 1, to)
  }

  /** A strictly increasing sequence. */
  predicate Increasing(s: seq<nat>)
  {
    forall i, j :: 0 <= i < j < |s| ==> s[i] < s[j]
  }

  /** `Pending` lists exactly the keys in the range, each once, in increasing order. */
  lemma {:induction false} PendingExactly(keys: set<nat>, from: nat, to: nat)
    ensures forall k :: k in Pending(keys, from, to) <==> k in keys && from < k <= to
    ensures Increasing(Pending(keys, from, to))
    decreases if from < to then to - from else 0
  {
    if from < to {
      PendingExactly(keys, from + 1, to);
      var rest := Pending(keys, from + 1, to);
      var head: seq<nat> := if from + 1 in keys then [from + 1] else [];
      var all := head + rest;
      assert Pending(keys, from, to) == all;
      forall i, j | 0 <= i < j < |all|
        ensures all[i] < all[j]
      {
        if i >= |head| {
          assert all[i] == rest[i - |head|] && all[j] == rest[j - |head|];
        } else {
          assert all[j] == rest[j - 1] && all[j] in rest;
        }
      }
    }
  }

  /** The steps run in order; a step that throws ends the run. */
  function Run(steps: seq<nat>, parameters: Value, extras: Value, rs: seq<Nibble>): Outcome
    requires forall k :: k in steps ==> k in Steps
    requires |rs| == RandomCount
  {
    if steps == [] then Finished(Null, parameters, extras)
    else
      match Apply(Steps[steps[0]], parameters, extras, rs)
      case Threw(p) => Threw(p)
      case Finished(_, p, e) => Run(steps[1..], p, e, rs)
  }

  /** Content of H5P.InteractiveBook 1.`from` upgraded to 1.`to`. */
  function Upgrade(from: nat, to: nat, parameters: Value, extras: Value, rs: seq<Nibble>): Outcome
    requires |rs| == RandomCount
  {
    PendingExactly(Steps.Keys, from, to);
    Run(Pending(Steps.Keys, from, to), parameters, extras, rs)
  }

  /** At 1.6 or 1.7, only step 8 is pending on the way to 1.8. */
  lemma PendingTable(from: nat)
    requires 6 <= from < 8
    ensures Pending(Steps.Keys, from, 8) == [8]
  {
    assert Pending(Steps.Keys, 8, 8) == [];
    assert Pending(Steps.Keys, 7, 8) == [8] + [];
    if from == 6 {
      assert Pending(Steps.Keys, 6, 8) == [] + Pending(Steps.Keys, 7, 8);
    }
  }

  /** Below 1.6, both registered steps are pending on the way to 1.8. */
  lemma {:induction false} PendingBoth(from: nat)
    requires from < 6
    ensures Pending(Steps.Keys, from, 8) == [6, 8]
    decreases 6 - from
  {
    if from == 5 {
      PendingTable(6);
      assert Pending(Steps.Keys, 5, 8) == [6] + Pending(Steps.Keys, 6, 8);
    } else {
      PendingBoth(from + 1);
      assert Pending(Steps.Keys, from, 8) == [] + Pending(Steps.Keys, from + 1, 8);
    }
  }

  /** From before 1.6 to 1.8: step 6, then step 8 on what step 6 finished with. */
  lemma UpgradeBothSteps(from: nat, parameters: Value, extras: Value, rs: seq<Nibble>)
    requires from < 6 && |rs| == RandomCount
    ensures Upgrade(from, 8, parameters, extras, rs) ==
      match Apply(CoverMedium, parameters, extras, rs)
      case Threw(p) => Threw(p)
      case Finished(_, p, e) => Apply(TableBorders, p, e, rs)
  {
    PendingBoth(from);
    assert [6, 8][1..] == [8];
    assert Steps[6] == CoverMedium && Steps[8] == TableBorders;
    match Apply(CoverMedium, parameters, extras, rs)
    case Threw(p) =>
    case Finished(_, p, e) =>
      assert Run([8], p, e, rs) == Apply(TableBorders, p, e, rs) by {
        assert [8][1..] == [];
        match Apply(TableBorders, p, e, rs)
        case Threw(_) =>
        case Finished(_, p', e') =>
          assert Run([], p', e', rs) == Finished(Null, p', e');
      }
  }

  /** From 1.6 or 1.7 to 1.8: step 8 alone. */
  lemma UpgradeTableOnly(from: nat, parameters: Value, extras: Value, rs: seq<Nibble>)
    requires 6 <= from < 8 && |rs| == RandomCount
    ensures Upgrade(from, 8, parameters, extras, rs) == Apply(TableBorders, parameters, extras, rs)
  {
    PendingTable(from);
    assert [8][1..] == [];
    assert Steps[8] == TableBorders;
    match Apply(TableBorders, parameters, extras, rs)
    case Threw(_) =>
    case Finished(_, p, e) =>
      assert Run([], p, e, rs) == Finished(Null, p, e);
  }

  /** Content that is already at the target version, or past it, is handed back unchanged. */
  lemma UpgradeNothingPending(from: nat, to: nat, parameters: Value, extras: Value, rs: seq<Nibble>)
    requires to <= from && |rs| == RandomCount
    ensures Upgrade(from, to, parameters, extras, rs) == Finished(Null, parameters, extras)
  {
  }
}
