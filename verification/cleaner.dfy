/** `GeometryCleaner`: selective repair, CRS normalisation and
    first-occurrence deduplication. Each operation returns a fresh
    `CleaningResult` and leaves its input untouched. */
module Cleaner {
  import opened Wrappers
  import opened Geo
  import opened Distinct
  import Decimal

  /** The CRS a frame without one is declared to be in. */
  const AssumedCrs: string := "EPSG:4326"

  const NoCrsWarning: string := "Warning: No CRS set, assuming EPSG:4326"
  const NoDuplicatesMessage: string := "No duplicates found"

  /** `CleaningResult`. */
  datatype CleaningResult<G, A> = CleaningResult(
    cleaned: Dataset<G, A>,
    fixedCount: nat,
    removedCount: nat,
    reprojected: bool,
    log: seq<string>)

  function FoundMessage(n: nat): string
  {
    "Found " + Decimal.NatToString(n) + " invalid geometries"
  }

  function FixedMessage(n: nat): string
  {
    "Fixed " + Decimal.NatToString(n) + " geometries using make_valid"
  }

  function RemovedMessage(n: nat): string
  {
    "Removed " + Decimal.NatToString(n) + " duplicate geometries"
  }

  function ReprojectedMessage(source: string, target: string): string
  {
    "Reprojected from " + source + " to " + target
  }

  function AlreadyInTargetMessage(target: string): string
  {
    "Already in target CRS: " + target
  }

  /** One row of the masked `apply(make_valid)`: only a failing geometry is replaced. */
  function RepairFeature<G, A>(ops: GeometryOps<G>, f: Feature<G, A>): Feature<G, A>
  {
    if ops.isValid(f.geom) then f else f.(geom := ops.makeValid(f.geom))
  }

  /** `fix_invalid_geometries`. `fixedCount` is the number of geometries that
      failed `isValid` before repair; nothing checks them afterwards. */
  function FixInvalidGeometries<G, A>(ops: GeometryOps<G>, ds: Dataset<G, A>): (r: CleaningResult<G, A>)
    ensures |r.cleaned.features| == |ds.features| && r.cleaned.crs == ds.crs
    ensures forall i :: 0 <= i < |ds.features| ==> r.cleaned.features[i].attrs == ds.features[i].attrs
    ensures forall i :: 0 <= i < |ds.features| && ops.isValid(ds.features[i].geom) ==>
              r.cleaned.features[i] == ds.features[i]
    ensures forall i :: 0 <= i < |ds.features| && !ops.isValid(ds.features[i].geom) ==>
              r.cleaned.features[i].geom == ops.makeValid(ds.features[i].geom)
    ensures r.fixedCount == CountInvalid(ops.isValid, ds.features)
    ensures r.removedCount == 0 && !r.reprojected
    ensures r.fixedCount == 0 ==> r.log == [] && r.cleaned == ds
    ensures r.fixedCount > 0 ==> r.log == [FoundMessage(r.fixedCount), FixedMessage(r.fixedCount)]
  {
    var invalidCount := CountInvalid(ops.isValid, ds.features);
    if invalidCount > 0 then
      var repaired := seq(|ds.features|, i requires 0 <= i < |ds.features| => RepairFeature(ops, ds.features[i]));
      CleaningResult(Dataset(repaired, ds.crs), invalidCount, 0, false,
                     [FoundMessage(invalidCount), FixedMessage(invalidCount)])
    else
      CleaningResult(ds, 0, 0, false, [])
  }

  /** `normalize_crs`: a three-way branch on the frame's CRS text. After
      `to_crs(target)` the frame's CRS prints in pyproj's spelling of the
      target, which the log line does not use. */
  function NormalizeCrs<G, A>(ops: GeometryOps<G>, ds: Dataset<G, A>, target: string): (r: CleaningResult<G, A>)
    ensures r.fixedCount == 0 && r.removedCount == 0 && |r.log| == 1
    ensures |r.cleaned.features| == |ds.features|
    ensures forall i :: 0 <= i < |ds.features| ==> r.cleaned.features[i].attrs == ds.features[i].attrs
    ensures r.reprojected <==> ds.crs.Some? && ds.crs.value != target
    ensures ds.crs == None ==>
              r.cleaned == ds.(crs := Some(AssumedCrs)) && r.log == [NoCrsWarning]
    ensures ds.crs == Some(target) ==>
              r.cleaned == ds && r.log == [AlreadyInTargetMessage(target)]
    ensures ds.crs.Some? && ds.crs.value != target ==>
              && r.cleaned.crs == Some(ops.canonical(target))
              && r.log == [ReprojectedMessage(ds.crs.value, target)]
              && forall i :: 0 <= i < |ds.features| ==>
                   r.cleaned.features[i].geom == ops.project(ds.crs.value, target, ds.features[i].geom)
  {
    match ds.crs
    case None =>
      CleaningResult(ds.(crs := Some(AssumedCrs)), 0, 0, false, [NoCrsWarning])
    case Some(source) =>
      if source != target then
        var moved := seq(|ds.features|, i requires 0 <= i < |ds.features| =>
                           ds.features[i].(geom := ops.project(source, target, ds.features[i].geom)));
        CleaningResult(Dataset(moved, Some(ops.canonical(target))), 0, 0, true, [ReprojectedMessage(source, target)])
      else
        CleaningResult(ds, 0, 0, false, [AlreadyInTargetMessage(target)])
  }

  /** `remove_duplicates`: `drop_duplicates(subset=['geometry'])`, keeping the
      first feature of every group of equal geometries. */
  function RemoveDuplicates<G(==), A>(ds: Dataset<G, A>): (r: CleaningResult<G, A>)
    ensures r.removedCount + |r.cleaned.features| == |ds.features|
    ensures r.cleaned.crs == ds.crs && r.fixedCount == 0 && !r.reprojected
    ensures DistinctKeys(r.cleaned.features, GeomOf)
    ensures Keys(r.cleaned.features, GeomOf) == Keys(ds.features, GeomOf)
    ensures |r.cleaned.features| == |Keys(ds.features, GeomOf)|
    ensures var p := FirstPositions(ds.features, GeomOf);
            |r.cleaned.features| == |p| &&
            forall k :: 0 <= k < |p| ==> r.cleaned.features[k] == ds.features[p[k]]
    ensures r.log == [NoDuplicatesMessage] <==> r.removedCount == 0
    ensures r.removedCount > 0 ==> r.log == [RemovedMessage(r.removedCount)]
  {
    var kept := DedupBy(ds.features, GeomOf);
    DedupByDistinct(ds.features, GeomOf);
    DedupByKeys(ds.features, GeomOf);
    DedupByLength(ds.features, GeomOf);
    DedupBySelectsFirstOccurrences(ds.features, GeomOf);
    var removed := |ds.features| - |kept|;
    var log := if removed > 0 then [RemovedMessage(removed)] else [NoDuplicatesMessage];
    CleaningResult(Dataset(kept, ds.crs), 0, removed, false, log)
  }

  /** Under the assumption that `make_valid` repairs every geometry it is
      given, one repair pass leaves nothing to repair: a second pass finds no
      invalid geometry, logs nothing and returns the same data. */
  lemma RepairTwiceIsNoOp<G, A>(ops: GeometryOps<G>, ds: Dataset<G, A>)
    requires forall i :: 0 <= i < |ds.features| && !ops.isValid(ds.features[i].geom) ==>
               ops.isValid(ops.makeValid(ds.features[i].geom))
    ensures var once := FixInvalidGeometries(ops, ds).cleaned;
            && (forall i :: 0 <= i < |once.features| ==> ops.isValid(once.features[i].geom))
            && FixInvalidGeometries(ops, once) == CleaningResult(once, 0, 0, false, [])
  {
  }

  /** A frame with a CRS ends up in the target CRS, and normalising again
      changes nothing, provided the target is written the way pyproj prints
      it (the default "EPSG:4326" is). */
  lemma NormalizeCrsSettles<G, A>(ops: GeometryOps<G>, ds: Dataset<G, A>, target: string)
    requires ds.crs.Some? && ops.canonical(target) == target
    ensures var once := NormalizeCrs(ops, ds, target).cleaned;
            && once.crs == Some(target)
            && NormalizeCrs(ops, once, target).cleaned == once
            && !NormalizeCrs(ops, once, target).reprojected
  {
  }

  /** A target spelled otherwise than pyproj prints it ("epsg:32636") never
      matches the CRS it produces: a frame reprojected once is reprojected
      again by a second normalisation, to the same printed CRS. */
  lemma NonCanonicalTargetReprojectsAgain<G, A>(ops: GeometryOps<G>, ds: Dataset<G, A>, target: string)
    requires ds.crs.Some? && ds.crs.value != target && ops.canonical(target) != target
    ensures var once := NormalizeCrs(ops, ds, target);
            var twice := NormalizeCrs(ops, once.cleaned, target);
            && once.reprojected && twice.reprojected
            && twice.cleaned.crs == once.cleaned.crs
            && twice.log == [ReprojectedMessage(ops.canonical(target), target)]
  {
  }

  /** A frame without a CRS is declared EPSG:4326 whatever the target, so it
      does not end up in any other target CRS and a second normalisation
      reprojects it. */
  lemma MissingCrsIgnoresTarget<G, A>(ops: GeometryOps<G>, ds: Dataset<G, A>, target: string)
    requires ds.crs.None? && target != AssumedCrs
    ensures NormalizeCrs(ops, ds, target).cleaned.crs != Some(target)
    ensures NormalizeCrs(ops, NormalizeCrs(ops, ds, target).cleaned, target).reprojected
  {
  }

  /** Deduplicating a deduplicated frame removes nothing and says so. */
  lemma RemoveDuplicatesIdempotent<G, A>(ds: Dataset<G, A>)
    ensures var once := RemoveDuplicates(ds).cleaned;
            && RemoveDuplicates(once).removedCount == 0
            && RemoveDuplicates(once).cleaned == once
            && RemoveDuplicates(once).log == [NoDuplicatesMessage]
  {
    var once := RemoveDuplicates(ds).cleaned;
    DedupByIdempotent(ds.features, GeomOf);
  }

  /** Two equal points and a third: the second point is dropped, the first
      (with its attributes) is kept. */
  lemma EqualPointsExample()
    ensures var ds := Dataset([Feature(0, "A"), Feature(0, "B"), Feature(1, "C")], Some("EPSG:4326"));
            var r := RemoveDuplicates(ds);
            && r.cleaned.features == [Feature(0, "A"), Feature(1, "C")]
            && r.removedCount == 1
  {
    var fs := [Feature(0, "A"), Feature(0, "B"), Feature(1, "C")];
    assert fs[..2] == [Feature(0, "A"), Feature(0, "B")];
    assert fs[..2][..1] == [Feature(0, "A")];
    assert GeomOf(fs[1]) in Keys(fs[..1], GeomOf) by {
      assert GeomOf(fs[..1][0]) == 0;
    }
    assert Keys(fs[..2], GeomOf) == {0} by {
      KeysSnoc(fs[..2], GeomOf);
      assert Keys(fs[..2][..1], GeomOf) == {0};
    }
    assert DedupBy(fs[..2], GeomOf) == [Feature(0, "A")];
    assert DedupBy(fs, GeomOf) == [Feature(0, "A"), Feature(1, "C")];
  }
}
