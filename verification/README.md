# Vector ETL pipeline: validation, cleaning and stage sequencing

A Dafny model of the decision logic of a geospatial ETL pipeline that reads a
vector file, validates it, repairs invalid geometries, normalises the
coordinate reference system (CRS), removes duplicate geometries and loads the
result into PostGIS. Three parts are modelled:

- **Validator** (`VectorValidator`, module `Validator`): the
  exists → supported-suffix → readable gate of `validate_file`, which reports
  failures as data. Also the counting and indexing report of
  `check_geometry_validity`, and `detect_crs`.
- **Cleaner** (`GeometryCleaner`, module `Cleaner`):
  - selective repair with `make_valid`;
  - the three-way CRS branch of `normalize_crs`;
  - first-occurrence deduplication on the geometry alone.
- **Pipeline** (the `process` command, module `Pipeline`): a pure function
  from options, settings and the outcomes of the external collaborators to
  the stages run, the frame handed to the loader, and the exit status.

A GeoDataFrame is a `Geo.Dataset`: a sequence of features (geometry plus
attribute row) and an optional CRS string. The geometry is a type parameter
whose only observable property is equality. Shapely's `is_valid`,
`make_valid`, the `to_crs` coordinate transformation and `geom_type` are the
opaque functions of a `Geo.GeometryOps` record. `Path.exists` and
`gpd.read_file` are the opaque functions of a `Validator.FileSystem` record.
The database load is an opaque function of `Pipeline.Env`; whether index
creation succeeds is only reported, so it does not appear. Log and error messages are modelled as exact strings, with
counts printed by `Decimal.NatToString`.

The generic module `Distinct` holds first-occurrence deduplication by a key.
It implements both `drop_duplicates(subset=['geometry'])` and
`geom_type.unique()`. Its reference definition, `FirstPositions`, lists the
positions holding the first element with their key. Lemmas show that the
deduplication selects exactly those elements, in order. They also show that
the result has no repeated keys, loses no key, has one element per distinct
key, and is idempotent.

Behaviour of the code worth noting, all of it modelled as written:
- A frame without a CRS is declared EPSG:4326 whatever the target
  (src/pipeline/cleaner.py:86-88).
- Deduplication uses exact geometry equality (src/pipeline/cleaner.py:120).
- `fixed_count` counts the geometries that were invalid before repair; nothing
  checks them after repair (src/pipeline/cleaner.py:43-52).
- Every failure exits with status 1 (src/cli.py:60, 167, 199).

## Model

| member | source | states |
|---|---|---|
| Geo.CountInvalid | src/pipeline/cleaner.py:43-44 | the mask sum never exceeds the number of features, and is 0 exactly when every geometry passes `is_valid` |
| Distinct.DedupBy | src/pipeline/cleaner.py:120 | first-occurrence deduplication by a key never lengthens its input; the lemmas below state what it keeps |
| Distinct.FirstPositions | src/pipeline/cleaner.py:120 | the kept positions under `keep="first"`: strictly increasing, in range, and containing a position exactly when no earlier element has the same key |
| Distinct.DedupBySelectsFirstOccurrences | src/pipeline/cleaner.py:120 | deduplication is the order-preserving subsequence of first occurrences: its k-th element is the input element at the k-th first-occurrence position |
| Distinct.DedupByKeys | src/pipeline/cleaner.py:120 | every key of the input still occurs in the output, and no new key appears |
| Distinct.DedupByDistinct | src/pipeline/cleaner.py:120 | no two kept elements share a key |
| Distinct.DedupByLength | src/pipeline/cleaner.py:117-122 | the output has exactly one element per distinct key of the input |
| Distinct.DedupByOfDistinct | src/pipeline/cleaner.py:120 | a sequence without repeated keys is returned unchanged |
| Distinct.DedupByIdempotent | src/pipeline/cleaner.py:120 | deduplicating twice gives the same result as once |
| Decimal.NatToString | src/pipeline/cleaner.py:47 | a count is printed as a non-empty string of digits with no leading zero unless the count is 0 |
| Decimal.ParseNatToString | src/pipeline/cleaner.py:55 | reading the printed count back gives the count |
| Decimal.NatToStringInjective | src/pipeline/cleaner.py:125 | different counts print as different numerals, so the log message determines the count |
| Cleaner.FixInvalidGeometries | src/pipeline/cleaner.py:26-63 | keeps length, order, attributes and CRS; leaves valid geometries unchanged and replaces each invalid one by `make_valid` of itself; `fixed_count` is the number of invalid inputs; `removed_count` is 0 and `reprojected` false; the log is empty and the data unchanged when nothing is invalid, otherwise exactly "Found n invalid geometries" then "Fixed n geometries using make_valid" |
| Cleaner.RepairTwiceIsNoOp | src/pipeline/cleaner.py:43-52 | if `make_valid` repairs every invalid input, every geometry is valid after one pass, and a second pass has `fixed_count` 0, an empty log and identical data |
| Cleaner.NormalizeCrs | src/pipeline/cleaner.py:65-103 | with no CRS: data unchanged, CRS set to EPSG:4326 whatever the target, one warning. With a CRS text equal to the target: data unchanged. With a different CRS: every geometry projected from the source to the target, and the CRS becomes the target as pyproj prints it, while the log quotes the target as given. `reprojected` holds exactly in the last case. The log always has one entry. Length and attributes are kept, and `fixed_count` and `removed_count` are 0 |
| Cleaner.NormalizeCrsSettles | src/pipeline/cleaner.py:85-95 | when the target is spelled as pyproj prints it, a frame with a CRS ends in the target CRS, and normalising it again neither reprojects nor changes it |
| Cleaner.NonCanonicalTargetReprojectsAgain | src/pipeline/cleaner.py:89-93 | when the target is spelled otherwise than pyproj prints it, a reprojected frame is reprojected again by a second normalisation, to the same printed CRS, logging "Reprojected from" the printed CRS "to" the target as given |
| Cleaner.MissingCrsIgnoresTarget | src/pipeline/cleaner.py:86-88 | a frame without a CRS and a target other than EPSG:4326 does not end in the target CRS, and a second normalisation reprojects it |
| Cleaner.RemoveDuplicates | src/pipeline/cleaner.py:105-135 | `removed_count` plus the output length is the input length. The output keeps exactly the first feature of each group of equal geometries, in order, with attributes ignored. It has no two equal geometries and loses no geometry of the input. The log is "No duplicates found" exactly when nothing was removed, and "Removed n duplicate geometries" otherwise |
| Cleaner.RemoveDuplicatesIdempotent | src/pipeline/cleaner.py:117-127 | a second deduplication removes nothing, returns the same frame and logs "No duplicates found" |
| Cleaner.EqualPointsExample | src/pipeline/cleaner.py:117-122 | of two equal points and a third, the second is dropped and the first, with its own attributes, is kept |
| Paths.RFind | src/pipeline/validator.py:45 | the position of the last occurrence of a character, or -1 when there is none |
| Paths.Name | src/pipeline/validator.py:45 | the final path component is the longest tail of the path without a separator: it contains none, and it is the whole path or preceded by one |
| Paths.Suffix | src/pipeline/validator.py:45-46 | `Path.suffix` is empty or a dot followed by at least one character with no further dot or separator; it is a tail of the path and strictly shorter than the final component, so a name's leading dot never starts it |
| Paths.NameSuffix | src/pipeline/validator.py:45 | the suffix of one component is empty, or a strictly shorter tail of it that is a dot followed by at least one dot-free character |
| Paths.HiddenNameHasNoSuffix | src/pipeline/validator.py:45 | a final component of at least two characters that starts with its only dot, such as ".shp", is the name and has an empty suffix |
| Paths.Lower | src/pipeline/validator.py:45 | lower-casing keeps the length and maps each ASCII capital to its small letter, leaving other characters alone |
| Paths.SuffixOfAppended | src/pipeline/validator.py:45 | appending an extension to a path whose last component is non-empty makes that extension the suffix |
| Validator.GeometryTypes | src/pipeline/validator.py:53 | the geometry types occur once each. Every feature's type occurs, and nothing else does. The order is that of first appearance |
| Validator.ValidateFile | src/pipeline/validator.py:25-59 | warnings are always empty, there is at most one error, and the result is valid exactly when the file exists, has a supported suffix in any case, and reads. A missing file gives only "File not found: path", an unsupported suffix gives only "Unsupported format: suffix" (the suffix as written), and a read failure gives only "Cannot read file: message". Each failure has empty metadata, given `geom_type` does not raise on a frame that was read. On success the metadata holds the feature count and the geometry types |
| Validator.ReadOnlyAfterGate | src/pipeline/validator.py:39-47 | when the file is missing or its format unsupported, the reader is never consulted: the result does not depend on it |
| Validator.HiddenFileUnsupported | src/pipeline/validator.py:44-47 | an existing hidden file such as "data/.shp" is invalid with the single error "Unsupported format: " and an empty suffix |
| Validator.UnsupportedExtensionRefused | src/pipeline/validator.py:44-47 | an existing file whose lower-cased extension is not listed is invalid, with the single error "Unsupported format: " followed by the extension as written |
| Validator.ExtensionCaseInsensitive | src/pipeline/validator.py:45 | a path ending in an extension is supported exactly when the lower-cased extension is `.shp`, `.geojson` or `.gpkg` |
| Validator.UpperCaseShapefileSupported | src/pipeline/validator.py:45 | an upper-case `.SHP` extension is accepted |
| Validator.TextExtensionUnsupported | src/pipeline/validator.py:45 | a `.txt` extension is refused |
| Validator.InvalidPositions | src/pipeline/validator.py:71-78 | the invalid indices are strictly increasing and are exactly the positions whose geometry fails `is_valid` |
| Validator.InvalidPositionsCount | src/pipeline/validator.py:72-78 | the mask sum equals the number of invalid indices |
| Validator.Percentage | src/pipeline/validator.py:77 | 0 for an empty frame, otherwise count·100/total, and always within [0, 100] |
| Validator.CheckGeometryValidity | src/pipeline/validator.py:60-81 | `invalid_count` equals the number of `invalid_indices` and is at most `total_features`. The indices are strictly increasing and are exactly the failing positions. The count is 0 exactly when every geometry is valid. The percentage lies in [0, 100] and is 0 for an empty frame |
| Validator.DetectCrs | src/pipeline/validator.py:83-95 | None exactly when the frame has no CRS, otherwise that CRS string |
| Pipeline.CleaningStages | src/cli.py:79-120 | the stages after validation include reading, the validity check, reprojection and deduplication, never load or index, and include repair exactly when repair is due |
| Pipeline.LoadStages | src/cli.py:153-186 | the load block always loads, and adds the index stage exactly when the loader reported no errors and index creation is configured |
| Pipeline.Finish | src/cli.py:135-186 | after cleaning, the stages are the cleaning stages followed by the load block's. A dry run returns status 0 without load or index and reports the deduplicated length. Otherwise status 1 is returned exactly when the load raised or reported errors. The frame handed on is the cleaned one |
| Pipeline.Process | src/cli.py:40-199 | the exit status is 0 or 1 and the first stage is validation. A failed validation stops with status 1 before the data is read, so no cleaner or loader runs. The validate-only flag stops with status 0 after validation |
| Pipeline.ProcessStagesInOrder | src/cli.py:53-186 | whichever stop a run reaches, its stages occur at most once each and in the command's order |
| Pipeline.PastGateRun | src/cli.py:70-76 | past the gate, given the file is unchanged since validation read it, the second read cannot fail and the run continues on that frame |
| Pipeline.PastGateReachesCleaning | src/cli.py:74-120 | given the file is unchanged and `to_crs` accepts the target, a run past the gate reads the data, checks validity, normalises the CRS and deduplicates |
| Pipeline.RepairInvokedIff | src/cli.py:97-105 | repair runs exactly when the gate is passed, cleaning is not skipped and some geometry of the read frame is invalid |
| Pipeline.CleaningChain | src/cli.py:107-120 | the frame reaching the loader is the deduplication of the CRS normalisation (to the target) of the possibly repaired frame |
| Pipeline.CleanedFrame | src/cli.py:95-120 | the cleaned frame has no two equal geometries and no more features than the input. Its CRS is the target as pyproj prints it when reprojected, the target when the input was already in it, or EPSG:4326 when the input had no CRS |
| Pipeline.DryRunSkipsDatabase | src/cli.py:135-149 | given `to_crs` accepts the target, a dry run neither loads nor indexes, returns normally, and reports the post-deduplication length as its output count |
| Pipeline.ExitCodeIff | src/cli.py:53-199 | given the file is unchanged between the two reads and `to_crs` accepts the target, status 1 is returned exactly when validation fails, or when a non-dry run's load block raises or reports errors |
| Pipeline.IndexOnlyAfterCleanLoad | src/cli.py:163-186 | the spatial index is created exactly when a non-dry run's load reported no errors and index creation is configured |
| Pipeline.RepairCountMatchesReport | src/cli.py:81-103 | the repair's `fixed_count` equals the `invalid_count` that gated it and the number of `invalid_indices` |

## Left out

- `src/pipeline/loader.py` is not part of this model. A load is an opaque outcome: `load_dataframe` returns a row count and an error list, or something in the load block raises. Batching, transactions and rollback happen inside libraries whose code is not shown.
- Geometry internals. `is_valid`, `make_valid`, `to_crs` projection and `geom_type` are opaque, total functions, and floating-point coordinates are not modelled. An exception raised by one of them, such as `to_crs` with an unknown target CRS, is not modelled. In the command it would end the process with status 1. A `geom_type` that raises on a frame `read_file` returned (one without a geometry column, say) would give a "Cannot read file" result whose metadata already holds `feature_count` (src/pipeline/validator.py:52-56); the model gives that case no metadata.
- CRS canonicalisation. A CRS is its `to_string()` text. The text after `to_crs(target)` is the opaque `canonical(target)` of `Geo.GeometryOps`; the text after `set_crs("EPSG:4326")` is taken to be "EPSG:4326".
- Pipeline.PastGateRun: the reader is one function of the path, so the file is assumed unchanged between the read in `validate_file` and the second `gpd.read_file` (src/cli.py:76). A file that changes or vanishes in between, making that unguarded read raise and the process exit with status 1 after "Validation passed", is not modelled.
- Pipeline.ExitCodeIff: for the same reason, the exit with status 1 from a raising second read (src/cli.py:76) is not among its causes; the file is assumed unchanged between the two reads. Nor is the exit with status 1 when `to_crs` raises on a target pyproj does not know (src/pipeline/cleaner.py:91, called outside any handler at src/cli.py:109); the target is assumed accepted.
- Pipeline.DryRunSkipsDatabase: a dry run whose target `to_crs` rejects (src/pipeline/cleaner.py:91, called at src/cli.py:109) exits with status 1 instead of returning normally; the target is assumed accepted.
- Pipeline.PastGateReachesCleaning: a run whose target `to_crs` rejects (src/pipeline/cleaner.py:91, called at src/cli.py:109) stops before deduplication with status 1; the target is assumed accepted, and the file unchanged between the two reads.
- Null (missing) geometries are not modelled.
- `invalid_indices` are index labels. They are modelled as positions, which they equal under the default RangeIndex that `gpd.read_file` produces.
- Paths.Lower: lower-cases ASCII letters only. Python's `str.lower` also maps other characters, for example the Kelvin sign to `k`, which could make an unusual suffix match `.gpkg`.
- Paths.Name: takes the text after the last `/`. Python's path normalisation, such as dropping a trailing separator or handling Windows separators, is not modelled. For the same reason the path in "File not found: …" and in the other messages is the text of `str(Path)`, which the model takes to be the path as given; `str(Path)` normalises it, so "./a.shp" would print as "a.shp".
- Validator.Percentage: computed as an exact rational. Python's float division and its rounding are not modelled.
- Click option parsing. The `exists=True` check on the input argument makes Click exit with usage status 2 before `process` runs. This is not modelled, so the model's missing-file path is reached only when the command is called directly.
- Echo, styling, the progress bar and connection-string building in `src/cli.py`. The output table name, batch size and index flag are plain parameters.
- The `validate` command in `src/cli.py` (lines 202-238) is outside the modelled core.
- `src/config/settings.py` is not part of this model: environment-variable loading, directory creation and its defaults. The batch size and the index flag are the fields of `Pipeline.EtlConfig`, and the command-line defaults are not fixed.
- Load time (`load_time_seconds`) and the benchmark timing checks.
