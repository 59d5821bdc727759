/**
 * The top-level gdk9_transformations.py: an older copy of the registry that
 * holds only four strategies. Its mirror, pairwise_rotate, interleave and
 * symmetry_stabilize are the same code as the packaged ones, so this module
 * registers the members of Transformations instead of repeating them.
 */
module LegacyTransformations {
  import opened Wrappers
  import opened Transformations

  /** TRANSFORMATIONS: four entries, no cycle. */
  const LegacyStrategies: Registry := [
    ("mirror", Mirror),
    ("pairwise_rotate", PairwiseRotated),
    ("interleave", Interleave),
    ("symmetry_stabilize", SymmetryStabilized)
  ]

  /** available_transformations: the four names in registration order. */
  function AvailableTransformations(): (r: seq<string>)
    ensures r == ["mirror", "pairwise_rotate", "interleave", "symmetry_stabilize"]
  {
    Names(LegacyStrategies)
  }

  /** get_transformation: KeyError for any name outside the four. */
  function GetTransformation(name: string): (r: Result<string -> string, Error>)
    ensures r.Success? <==> name in AvailableTransformations()
    ensures r.Failure? ==> r.error == KeyError(name)
    ensures r.Success? ==> IsPermutation(r.value)
  {
    EveryStrategyIsPermutation();
    assert forall i :: 0 <= i < |LegacyStrategies| ==> LegacyStrategies[i] == Strategies[i];
    Lookup(LegacyStrategies, name)
  }

  /** The older registry is the packaged one without its last entry. */
  lemma LegacyIsPackagedPrefix()
    ensures LegacyStrategies == Strategies[..4]
    ensures Strategies == LegacyStrategies + [("cycle", CycleOnce)]
  {
  }

  /** cycle is not registered here. */
  lemma CycleIsUnknown()
    ensures GetTransformation("cycle") == Failure(KeyError("cycle"))
  {
  }

  /** Each of the four names finds the strategy listed under it. */
  lemma GetTransformationResolves(i: int)
    requires 0 <= i < |LegacyStrategies|
    ensures GetTransformation(LegacyStrategies[i].0) == Success(LegacyStrategies[i].1)
  {
    LookupFinds(LegacyStrategies, i);
  }

  /** Where the older registry answers, it gives the same strategy as the packaged one. */
  lemma AgreesWithPackaged(name: string)
    ensures GetTransformation(name).Success? ==>
      Transformations.GetTransformation(name) == GetTransformation(name)
  {
    var names := AvailableTransformations();
    if name in names {
      var i :| 0 <= i < |names| && names[i] == name;
      LegacyIsPackagedPrefix();
      assert LegacyStrategies[i] == Strategies[i];
      GetTransformationResolves(i);
      Transformations.GetTransformationResolves(i);
    }
  }

  /** The older registry refuses exactly what the packaged one refuses, plus cycle. */
  lemma RefusesOnlyCycleMore(name: string)
    ensures GetTransformation(name).Failure? <==>
      (Transformations.GetTransformation(name).Failure? || name == "cycle")
  {
    var legacy := AvailableTransformations();
    var packaged := Transformations.AvailableTransformations();
    assert packaged == legacy + ["cycle"];
    assert name in packaged <==> name in legacy || name == "cycle";
    assert "cycle" !in legacy;
  }
}
