/** The ordered patch registry of lib/patches/index.js: the patches are
    applied in this order. */
module Registry {
  import PatchBase
  import IsDocker
  import InternetAccess
  import RootCheck
  import Punycode
  import PlanAutoaccept
  import LoadingMessages
  import AutoUpdater
  import Patcher
  import Wrappers

  /** The registry; the loading-messages descriptor depends on the colour
      palette and on the random draws. */
  function Patches(palette: LoadingMessages.Palette, pick: nat -> LoadingMessages.SuffixIndex)
    : seq<PatchBase.Patch>
  {
    [ IsDocker.PATCH,
      InternetAccess.PATCH,
      RootCheck.PATCH,
      Punycode.PATCH,
      PlanAutoaccept.PATCH,
      LoadingMessages.Patch(palette, pick),
      AutoUpdater.PATCH ]
  }

  const IDS: seq<string> :=
    ["is-docker", "internet-access", "root-check", "punycode", "plan-autoaccept", "loading-messages", "auto-updater"]

  /** The patch ids, in order, are distinct. */
  lemma IdsDistinct()
    ensures forall i, j :: 0 <= i < j < |IDS| ==> IDS[i] != IDS[j]
  {
    forall i, j | 0 <= i < j < |IDS|
      ensures IDS[i] != IDS[j]
    {
      assert IDS[i][..2] != IDS[j][..2] || IDS[i][2] != IDS[j][2] || |IDS[i]| != |IDS[j]|;
    }
  }

  /** The registry lists the seven patches under the ids `IDS`, in order;
      exactly the first three are required; each supplies `canApply` and
      `apply` and keeps the default `verify`. */
  lemma Shape(palette: LoadingMessages.Palette, pick: nat -> LoadingMessages.SuffixIndex)
    ensures var ps := Patches(palette, pick);
      |ps| == |IDS| &&
      forall k :: 0 <= k < |ps| ==>
        ps[k].id == IDS[k] && (ps[k].required <==> k < 3) &&
        Patcher.Supplied(ps[k]) && ps[k].verify.Default?
  {
    var ps := Patches(palette, pick);
    forall k | 0 <= k < |ps|
      ensures ps[k].id == IDS[k] && (ps[k].required <==> k < 3)
      ensures Patcher.Supplied(ps[k]) && ps[k].verify.Default?
    {
      if k == 0 {
      } else if k == 1 {
      } else if k == 2 {
      } else if k == 3 {
      } else if k == 4 {
      } else if k == 5 {
      } else {
      }
    }
  }

  /** Every patch but plan-autoaccept changes every text its `canApply`
      accepts, so `verify` never turns it down. */
  lemma Effects(palette: LoadingMessages.Palette, pick: nat -> LoadingMessages.SuffixIndex)
    ensures var ps := Patches(palette, pick);
      forall k :: 0 <= k < |ps| && k != 4 ==>
        PatchBase.Effective(ps[k])
  {
    IsDocker.PatchEffective();
    InternetAccess.PatchEffective();
    RootCheck.PatchEffective();
    Punycode.PatchEffective();
    AutoUpdater.PatchEffective();
    LoadingMessages.PatchEffective(palette, pick);
  }

  /** A run of the registry never throws and reports the seven patches in
      order. A required patch fails only when its pattern is not found,
      never on verification; only optional patches are skipped; and only
      plan-autoaccept can be skipped for having no effect. */
  lemma RegistryRun(palette: LoadingMessages.Palette, pick: nat -> LoadingMessages.SuffixIndex, source: string)
    ensures var ps := Patches(palette, pick);
      var run := Patcher.RunAll(ps, source);
      run.Ok? && |run.value.results| == |IDS| &&
      forall k :: 0 <= k < |IDS| ==>
        var e := run.value.results[k];
        e.id == IDS[k] &&
        (e.status == Patcher.FAILED ==> k < 3 && e.reason == Wrappers.Some(Patcher.NOT_FOUND)) &&
        (e.status == Patcher.SKIPPED ==> k >= 3) &&
        (e.reason == Wrappers.Some(Patcher.NO_EFFECT) ==> k == 4)
  {
    var ps := Patches(palette, pick);
    Shape(palette, pick);
    Effects(palette, pick);
    Patcher.RunConsistent(ps, source);
  }
}
