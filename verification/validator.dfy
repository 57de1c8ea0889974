/** `VectorValidator`: the file gate (`validate_file`), the geometry validity
    report (`check_geometry_validity`) and CRS detection (`detect_crs`). */
module Validator {
  import opened Wrappers
  import opened Geo
  import opened Distinct
  import opened Paths

  /** The extensions `validate_file` accepts, compared after lower-casing. */
  const SupportedFormats: seq<string> := [".shp", ".geojson", ".gpkg"]

  /** What `validate_file` records about a readable file. */
  datatype FileMetadata = FileMetadata(featureCount: nat, geometryTypes: seq<string>)

  /** `ValidationResult`. Its metadata dictionary is either empty (None) or
      holds both `feature_count` and `geometry_type`. */
  datatype ValidationResult = ValidationResult(
    isValid: bool,
    errors: seq<string>,
    warnings: seq<string>,
    metadata: Option<FileMetadata>)

  /** The file system as the validator sees it: `Path.exists` and
      `gpd.read_file`, which either returns a frame or raises with a message. */
  datatype FileSystem<!G, !A> = FileSystem(
    pathExists: string -> bool,
    read: string -> Result<Dataset<G, A>, string>)

  /** The dictionary returned by `check_geometry_validity`. */
  datatype GeometryReport = GeometryReport(
    totalFeatures: nat,
    invalidCount: nat,
    invalidPercentage: real,
    invalidIndices: seq<nat>)

  predicate IsSupported(path: string)
  {
    Lower(Suffix(path)) in SupportedFormats
  }

  /** `gdf.geom_type.unique().tolist()`: the geometry types, each once, in
      the order they first appear. */
  function GeometryTypes<G, A>(ops: GeometryOps<G>, fs: seq<Feature<G, A>>): (types: seq<string>)
    ensures DistinctKeys(types, Id)
    ensures forall i :: 0 <= i < |fs| ==> ops.geomType(fs[i].geom) in types
    ensures forall t :: t in types ==> exists i :: 0 <= i < |fs| && ops.geomType(fs[i].geom) == t
    ensures var all := seq(|fs|, i requires 0 <= i < |fs| => ops.geomType(fs[i].geom));
            |types| == |FirstPositions(all, Id)| &&
            forall k :: 0 <= k < |types| ==> types[k] == all[FirstPositions(all, Id)[k]]
  {
    var all := seq(|fs|, i requires 0 <= i < |fs| => ops.geomType(fs[i].geom));
    var types := DedupBy(all, Id);
    DedupByDistinct(all, Id);
    DedupByKeys(all, Id);
    DedupBySelectsFirstOccurrences(all, Id);
    forall i | 0 <= i < |fs|
      ensures ops.geomType(fs[i].geom) in types
    {
      assert Id(all[i]) in Keys(all, Id);
      var j :| 0 <= j < |types| && Id(types[j]) == Id(all[i]);
    }
    assert forall t :: t in types ==> Id(t) in Keys(types, Id);
    types
  }

  /** `validate_file`: existence, then format, then readability; the first
      failing check decides the single error and nothing after it runs. */
  function ValidateFile<G, A>(fsys: FileSystem<G, A>, ops: GeometryOps<G>, path: string): (r: ValidationResult)
    ensures r.warnings == []
    ensures r.isValid <==> r.errors == []
    ensures r.isValid <==> fsys.pathExists(path) && IsSupported(path) && fsys.read(path).Success?
    ensures !fsys.pathExists(path) ==>
              r.errors == ["File not found: " + path] && r.metadata == None
    ensures fsys.pathExists(path) && !IsSupported(path) ==>
              r.errors == ["Unsupported format: " + Suffix(path)] && r.metadata == None
    ensures fsys.pathExists(path) && IsSupported(path) && fsys.read(path).Failure? ==>
              r.errors == ["Cannot read file: " + fsys.read(path).error] && r.metadata == None
    ensures r.isValid ==>
              r.metadata == Some(FileMetadata(|fsys.read(path).value.features|,
                                              GeometryTypes(ops, fsys.read(path).value.features)))
  {
    if !fsys.pathExists(path) then
      ValidationResult(false, ["File not found: " + path], [], None)
    else if Lower(Suffix(path)) !in SupportedFormats then
      ValidationResult(false, ["Unsupported format: " + Suffix(path)], [], None)
    else
      match fsys.read(path)
      case Failure(e) => ValidationResult(false, ["Cannot read file: " + e], [], None)
      case Success(ds) =>
        var meta := FileMetadata(|ds.features|, GeometryTypes(ops, ds.features));
        var errors: seq<string> := [];
        ValidationResult(|errors| == 0, errors, [], Some(meta))
  }

  /** The reader is only consulted once the existence and format checks
      pass: before that, two file systems that agree on existence give the
      same result whatever their readers do. */
  lemma ReadOnlyAfterGate<G, A>(fs1: FileSystem<G, A>, fs2: FileSystem<G, A>, ops: GeometryOps<G>, path: string)
    requires fs1.pathExists(path) == fs2.pathExists(path)
    requires !fs1.pathExists(path) || !IsSupported(path)
    ensures ValidateFile(fs1, ops, path) == ValidateFile(fs2, ops, path)
  {
  }

  /** The positions of the features failing `isValid`, in increasing order
      (`gdf[invalid].index.tolist()` under the default RangeIndex). */
  function InvalidPositions<G, A>(isValid: G -> bool, fs: seq<Feature<G, A>>): (p: seq<nat>)
    ensures forall k :: 0 <= k < |p| ==> p[k] < |fs| && !isValid(fs[p[k]].geom)
    ensures forall k, l :: 0 <= k < l < |p| ==> p[k] < p[l]
    ensures forall i :: i in p <==> 0 <= i < |fs| && !isValid(fs[i].geom)
  {
    if |fs| == 0 then []
    else
      var n := |fs| - 1;
      var p := InvalidPositions(isValid, fs[..n]);
      if isValid(fs[n].geom) then p else p + [n]
  }

  /** The mask sum and the filtered index list count the same features. */
  lemma {:induction false} InvalidPositionsCount<G, A>(isValid: G -> bool, fs: seq<Feature<G, A>>)
    ensures |InvalidPositions(isValid, fs)| == CountInvalid(isValid, fs)
  {
    if |fs| > 0 {
      InvalidPositionsCount(isValid, fs[..|fs| - 1]);
    }
  }

  /** `invalid_count / total_features * 100`, or 0 for an empty frame. */
  function Percentage(count: nat, total: nat): (pct: real)
    requires count <= total
    ensures 0.0 <= pct <= 100.0
    ensures total == 0 ==> pct == 0.0
    ensures total > 0 ==> pct * (total as real) == (count as real) * 100.0
  {
    if total > 0 then (count as real) / (total as real) * 100.0 else 0.0
  }

  /** `check_geometry_validity`. */
  function CheckGeometryValidity<G, A>(ops: GeometryOps<G>, ds: Dataset<G, A>): (r: GeometryReport)
    ensures r.totalFeatures == |ds.features|
    ensures r.invalidCount == |r.invalidIndices| <= r.totalFeatures
    ensures forall k, l :: 0 <= k < l < |r.invalidIndices| ==> r.invalidIndices[k] < r.invalidIndices[l]
    ensures forall i :: i in r.invalidIndices <==> 0 <= i < |ds.features| && !ops.isValid(ds.features[i].geom)
    ensures r.invalidCount == 0 <==> forall i :: 0 <= i < |ds.features| ==> ops.isValid(ds.features[i].geom)
    ensures 0.0 <= r.invalidPercentage <= 100.0
    ensures r.totalFeatures == 0 ==> r.invalidPercentage == 0.0
    ensures r.invalidPercentage == Percentage(r.invalidCount, r.totalFeatures)
  {
    var total := |ds.features|;
    var count := CountInvalid(ops.isValid, ds.features);
    var indices := InvalidPositions(ops.isValid, ds.features);
    InvalidPositionsCount(ops.isValid, ds.features);
    var pct := Percentage(count, total);
    GeometryReport(total, count, pct, indices)
  }

  /** `detect_crs`: the CRS string, or None when the frame has none. */
  function DetectCrs<G, A>(ds: Dataset<G, A>): (crs: Option<string>)
    ensures crs.None? <==> ds.crs.None?
    ensures forall c :: ds.crs == Some(c) ==> crs == Some(c)
  {
    match ds.crs
    case None => None
    case Some(c) => Some(c)
  }

  /** A file whose extension is not supported is refused on that extension,
      which the error quotes as written. */
  lemma UnsupportedExtensionRefused<G, A>(fsys: FileSystem<G, A>, ops: GeometryOps<G>, stem: string, ext: string)
    requires |stem| > 0 && stem[|stem| - 1] != '/'
    requires |ext| >= 2 && ext[0] == '.'
    requires forall k :: 1 <= k < |ext| ==> ext[k] != '.' && ext[k] != '/'
    requires fsys.pathExists(stem + ext)
    requires Lower(ext) !in SupportedFormats
    ensures !ValidateFile(fsys, ops, stem + ext).isValid
    ensures ValidateFile(fsys, ops, stem + ext).errors == ["Unsupported format: " + ext]
  {
    SuffixOfAppended(stem, ext);
  }

  /** The extension is compared case-insensitively: a path is supported
      exactly when its lower-cased extension is one of the listed ones. */
  lemma ExtensionCaseInsensitive(stem: string, ext: string)
    requires |stem| > 0 && stem[|stem| - 1] != '/'
    requires |ext| >= 2 && ext[0] == '.'
    requires forall k :: 1 <= k < |ext| ==> ext[k] != '.' && ext[k] != '/'
    ensures IsSupported(stem + ext) <==> Lower(ext) in SupportedFormats
  {
    SuffixOfAppended(stem, ext);
  }

  /** ".SHP" is accepted: it lower-cases to ".shp". */
  lemma UpperCaseShapefileSupported()
    ensures Lower(".SHP") in SupportedFormats
  {
    var lowered := Lower(".SHP");
    assert lowered[0] == '.' && lowered[1] == 's' && lowered[2] == 'h' && lowered[3] == 'p';
    assert lowered == ".shp";
  }

  /** ".txt" is refused: it differs from every listed extension. */
  lemma TextExtensionUnsupported()
    ensures Lower(".txt") !in SupportedFormats
  {
    var lowered := Lower(".txt");
    assert |lowered| == 4 && lowered[1] == 't';
  }

  /** An existing hidden file such as "data/.shp" is refused: its suffix is
      empty, so the error quotes an empty suffix. */
  lemma HiddenFileUnsupported<G, A>(fsys: FileSystem<G, A>, ops: GeometryOps<G>, dir: string, name: string)
    requires |name| >= 2 && name[0] == '.'
    requires forall k :: 0 <= k < |name| ==> name[k] != '/'
    requires forall k :: 1 <= k < |name| ==> name[k] != '.'
    requires fsys.pathExists(dir + "/" + name)
    ensures !ValidateFile(fsys, ops, dir + "/" + name).isValid
    ensures ValidateFile(fsys, ops, dir + "/" + name).errors == ["Unsupported format: "]
  {
    HiddenNameHasNoSuffix(dir, name);
    assert Lower([]) == [];
    assert "Unsupported format: " + Suffix(dir + "/" + name) == "Unsupported format: ";
  }
}
