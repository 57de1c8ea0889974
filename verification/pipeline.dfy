/** The stage sequencing of the `process` command: validation gate,
    validate-only stop, conditional repair, reprojection, deduplication,
    dry-run stop, load, and the optional spatial index. Echoed output is
    ignored; what remains is which stages run, on which data, and the exit
    status. */
module Pipeline {
  import opened Wrappers
  import opened Geo
  import opened Distinct
  import Validator
  import Cleaner

  /** The command-line options of `process`. */
  datatype Options = Options(
    outputTable: string,
    validateOnly: bool,
    skipCleaning: bool,
    targetCrs: string,
    dryRun: bool)

  /** The ETL settings `process` reads. */
  datatype EtlConfig = EtlConfig(batchSize: nat, createIndexes: bool)

  /** The observable steps of a run, in the order the command performs them. */
  datatype Stage =
    | Validate        // validate_file
    | ReadData        // gpd.read_file
    | CheckValidity   // check_geometry_validity
    | Repair          // fix_invalid_geometries
    | Reproject       // normalize_crs
    | Dedup           // remove_duplicates
    | Load            // engine, PostGISLoader and load_dataframe
    | CreateIndex     // create_spatial_index

  /** How the load block ended: something raised inside it, or
      `load_dataframe` returned its row count and error list. */
  datatype LoadOutcome = LoadRaised(message: string) | LoadReturned(rowsLoaded: nat, errors: seq<string>)

  /** Everything outside the command's own logic: the file system, the
      geometry library and the database load (frame, table, batch size).
      Whether index creation succeeds is only reported, so it is not part of
      the environment. */
  datatype Env<!G, !A> = Env(
    fsys: Validator.FileSystem<G, A>,
    ops: GeometryOps<G>,
    load: (Dataset<G, A>, string, nat) -> LoadOutcome)

  /** The result of one invocation: the stages run, the process exit status
      (0 when the command returns normally), the frame after deduplication
      when cleaning ran, and the "Output features" figure of the summary. */
  datatype Run<G, A> = Run(
    stages: seq<Stage>,
    exitCode: nat,
    final: Option<Dataset<G, A>>,
    reportedOutput: Option<nat>)

  function Rank(s: Stage): nat
  {
    match s
    case Validate => 0
    case ReadData => 1
    case CheckValidity => 2
    case Repair => 3
    case Reproject => 4
    case Dedup => 5
    case Load => 6
    case CreateIndex => 7
  }

  /** Stages occur at most once and in the command's order. */
  predicate InOrder(stages: seq<Stage>)
  {
    forall i, j :: 0 <= i < j < |stages| ==> Rank(stages[i]) < Rank(stages[j])
  }

  /** Repair runs exactly when cleaning is not skipped and the report found
      an invalid geometry. */
  predicate RepairRuns<G, A>(options: Options, ops: GeometryOps<G>, ds: Dataset<G, A>)
  {
    !options.skipCleaning && Validator.CheckGeometryValidity(ops, ds).invalidCount > 0
  }

  /** The frame handed from step 4 to step 5. */
  function AfterRepair<G, A>(options: Options, ops: GeometryOps<G>, ds: Dataset<G, A>): Dataset<G, A>
  {
    if RepairRuns(options, ops, ds) then Cleaner.FixInvalidGeometries(ops, ds).cleaned else ds
  }

  /** Steps 4 to 6: optional repair, then CRS normalisation, then deduplication,
      each consuming the previous step's frame. */
  function Clean<G(==), A>(options: Options, ops: GeometryOps<G>, ds: Dataset<G, A>): Dataset<G, A>
  {
    var repaired := AfterRepair(options, ops, ds);
    var normalized := Cleaner.NormalizeCrs(ops, repaired, options.targetCrs).cleaned;
    Cleaner.RemoveDuplicates(normalized).cleaned
  }

  /** The stages of a run that got past the validate-only stop. */
  function CleaningStages(repair: bool): (stages: seq<Stage>)
    ensures Validate in stages && ReadData in stages && CheckValidity in stages
    ensures Reproject in stages && Dedup in stages
    ensures Repair in stages <==> repair
    ensures Load !in stages && CreateIndex !in stages
  {
    if repair then [Validate, ReadData, CheckValidity, Repair, Reproject, Dedup]
    else [Validate, ReadData, CheckValidity, Reproject, Dedup]
  }

  /** The stages of a run past the validate-only stop are in order, whatever
      the load block adds after them. */
  lemma CleaningStagesInOrder(repair: bool, tail: seq<Stage>)
    requires tail == [] || tail == [Load] || tail == [Load, CreateIndex]
    ensures InOrder(CleaningStages(repair) + tail)
    ensures (CleaningStages(repair) + tail)[0] == Validate
  {
  }

  predicate LoadSucceeded(outcome: LoadOutcome)
  {
    outcome.LoadReturned? && outcome.errors == []
  }

  /** The stages the load block adds: the load itself, then the spatial
      index when the load reported no errors and index creation is
      configured. Whether the index build succeeds does not matter: a failure
      is only reported. */
  function LoadStages(outcome: LoadOutcome, createIndexes: bool): (tail: seq<Stage>)
    ensures tail == [Load] || tail == [Load, CreateIndex]
    ensures CreateIndex in tail <==> LoadSucceeded(outcome) && createIndexes
  {
    if LoadSucceeded(outcome) && createIndexes then [Load, CreateIndex] else [Load]
  }

  /** Steps 7 and 8, or the dry-run stop, after the cleaning stages. The load
      block fails with status 1 when anything in it raises or the loader
      reports errors. */
  function Finish<G, A>(options: Options, config: EtlConfig, env: Env<G, A>,
                        repair: bool, cleaned: Dataset<G, A>): (run: Run<G, A>)
    ensures run.stages == CleaningStages(repair) +
              (if options.dryRun then [] else LoadStages(env.load(cleaned, options.outputTable, config.batchSize), config.createIndexes))
    ensures run.final == Some(cleaned)
    ensures forall st :: st in CleaningStages(repair) ==> st in run.stages
    ensures Repair in run.stages <==> repair
    ensures Load in run.stages <==> !options.dryRun
    ensures CreateIndex in run.stages <==>
              !options.dryRun && LoadSucceeded(env.load(cleaned, options.outputTable, config.batchSize)) && config.createIndexes
    ensures run.exitCode == 0 || run.exitCode == 1
    ensures run.exitCode == 1 <==>
              !options.dryRun && !LoadSucceeded(env.load(cleaned, options.outputTable, config.batchSize))
    ensures options.dryRun ==> run.reportedOutput == Some(|cleaned.features|)
  {
    var stages := CleaningStages(repair);
    if options.dryRun then
      Run(stages, 0, Some(cleaned), Some(|cleaned.features|))
    else
      var outcome := env.load(cleaned, options.outputTable, config.batchSize);
      var tail := LoadStages(outcome, config.createIndexes);
      if LoadSucceeded(outcome) then
        Run(stages + tail, 0, Some(cleaned), Some(outcome.rowsLoaded))
      else
        Run(stages + tail, 1, Some(cleaned), None)
  }

  /** `process`. Every failure, whether reported by a stage or raised out of
      the command, ends the process with status 1. A failed validation stops
      the run before the data is read, so neither cleaner nor loader runs. */
  function Process<G(==), A>(options: Options, config: EtlConfig, env: Env<G, A>, inputFile: string): (run: Run<G, A>)
    ensures run.exitCode == 0 || run.exitCode == 1
    ensures |run.stages| >= 1 && run.stages[0] == Validate
    ensures !Validator.ValidateFile(env.fsys, env.ops, inputFile).isValid ==>
              run.stages == [Validate] && run.exitCode == 1 && run.final == None
    ensures Validator.ValidateFile(env.fsys, env.ops, inputFile).isValid && options.validateOnly ==>
              run.stages == [Validate] && run.exitCode == 0 && run.final == None
  {
    var validation := Validator.ValidateFile(env.fsys, env.ops, inputFile);
    if !validation.isValid then
      Run([Validate], 1, None, None)
    else if options.validateOnly then
      Run([Validate], 0, None, None)
    else
      match env.fsys.read(inputFile)
      case Failure(_) =>
        // read_file raising outside any handler: the interpreter exits with status 1
        Run([Validate, ReadData], 1, None, None)
      case Success(ds) =>
        Finish(options, config, env, RepairRuns(options, env.ops, ds), Clean(options, env.ops, ds))
  }

  /** Whether the input passes the gate and the command goes on past the
      validate-only stop. */
  predicate PastGate<G, A>(options: Options, env: Env<G, A>, inputFile: string)
  {
    Validator.ValidateFile(env.fsys, env.ops, inputFile).isValid && !options.validateOnly
  }

  /** The load outcome of a run that reaches step 7. */
  function LoadOf<G(==), A>(options: Options, config: EtlConfig, env: Env<G, A>, ds: Dataset<G, A>): LoadOutcome
  {
    env.load(Clean(options, env.ops, ds), options.outputTable, config.batchSize)
  }

  /** Past the gate, a run is the post-read part on the file's frame. The
      reader is one function of the path, so the file is taken to be unchanged
      between validation's read and the second read in step 2, which then
      cannot fail. */
  lemma PastGateRun<G, A>(options: Options, config: EtlConfig, env: Env<G, A>, inputFile: string)
    requires PastGate(options, env, inputFile)
    ensures env.fsys.read(inputFile).Success?
    ensures var ds := env.fsys.read(inputFile).value;
            Process(options, config, env, inputFile) ==
              Finish(options, config, env, RepairRuns(options, env.ops, ds), Clean(options, env.ops, ds))
  {
  }

  /** Every run performs its stages at most once each and in the command's
      order, whichever stop it reaches. */
  lemma ProcessStagesInOrder<G, A>(options: Options, config: EtlConfig, env: Env<G, A>, inputFile: string)
    ensures InOrder(Process(options, config, env, inputFile).stages)
  {
    if PastGate(options, env, inputFile) {
      PastGateRun(options, config, env, inputFile);
      var ds := env.fsys.read(inputFile).value;
      var repair := RepairRuns(options, env.ops, ds);
      if options.dryRun {
        CleaningStagesInOrder(repair, []);
        assert CleaningStages(repair) + [] == CleaningStages(repair);
      } else {
        CleaningStagesInOrder(repair, LoadStages(LoadOf(options, config, env, ds), config.createIndexes));
      }
    }
  }

  /** A run past the gate always reaches the cleaning stages. */
  lemma PastGateReachesCleaning<G, A>(options: Options, config: EtlConfig, env: Env<G, A>, inputFile: string)
    requires PastGate(options, env, inputFile)
    ensures var run := Process(options, config, env, inputFile);
            ReadData in run.stages && CheckValidity in run.stages && Reproject in run.stages && Dedup in run.stages
  {
  }

  /** Repair is invoked exactly when the gate is passed, cleaning is not
      skipped and the validity report counts an invalid geometry. */
  lemma RepairInvokedIff<G, A>(options: Options, config: EtlConfig, env: Env<G, A>, inputFile: string)
    ensures Repair in Process(options, config, env, inputFile).stages <==>
              && PastGate(options, env, inputFile)
              && !options.skipCleaning
              && CountInvalid(env.ops.isValid, env.fsys.read(inputFile).value.features) > 0
  {
  }

  /** Normalisation and then deduplication always run once the gate is
      passed, each on the previous step's frame; the frame that reaches the
      loader (or the dry-run report) is the result of that chain. */
  lemma CleaningChain<G, A>(options: Options, config: EtlConfig, env: Env<G, A>, inputFile: string)
    requires PastGate(options, env, inputFile)
    ensures var ds := env.fsys.read(inputFile).value;
            var repaired := AfterRepair(options, env.ops, ds);
            var normalized := Cleaner.NormalizeCrs(env.ops, repaired, options.targetCrs).cleaned;
            Process(options, config, env, inputFile).final == Some(Cleaner.RemoveDuplicates(normalized).cleaned)
  {
  }

  /** What the cleaning chain guarantees about the frame it hands on: no two
      features share a geometry, nothing is added, and the CRS is the target
      (as pyproj prints it, when a reprojection happened) unless the input
      had none, in which case it is EPSG:4326. */
  lemma CleanedFrame<G, A>(options: Options, ops: GeometryOps<G>, ds: Dataset<G, A>)
    ensures DistinctKeys(Clean(options, ops, ds).features, GeomOf)
    ensures |Clean(options, ops, ds).features| <= |ds.features|
    ensures ds.crs == Some(options.targetCrs) ==> Clean(options, ops, ds).crs == Some(options.targetCrs)
    ensures ds.crs.Some? && ds.crs != Some(options.targetCrs) ==>
              Clean(options, ops, ds).crs == Some(ops.canonical(options.targetCrs))
    ensures ds.crs.None? ==> Clean(options, ops, ds).crs == Some(Cleaner.AssumedCrs)
  {
  }

  /** A dry run stops before the database: no load, no index, a normal
      return, and the reported output count is the deduplicated length. */
  lemma DryRunSkipsDatabase<G, A>(options: Options, config: EtlConfig, env: Env<G, A>, inputFile: string)
    ensures var run := Process(options, config, env, inputFile);
            PastGate(options, env, inputFile) && options.dryRun ==>
            && Load !in run.stages && CreateIndex !in run.stages
            && run.exitCode == 0
            && run.final.Some?
            && run.reportedOutput == Some(|run.final.value.features|)
  {
  }

  /** Status 1 is the only failure status, and it is returned exactly for a
      failed validation or a load block that raised or reported errors. */
  lemma ExitCodeIff<G, A>(options: Options, config: EtlConfig, env: Env<G, A>, inputFile: string)
    ensures var run := Process(options, config, env, inputFile);
            run.exitCode == 1 <==>
              || !Validator.ValidateFile(env.fsys, env.ops, inputFile).isValid
              || (&& PastGate(options, env, inputFile)
                  && !options.dryRun
                  && !LoadSucceeded(LoadOf(options, config, env, env.fsys.read(inputFile).value)))
  {
  }

  /** The spatial index is built only after a load that reported no errors,
      and then exactly when index creation is configured. */
  lemma IndexOnlyAfterCleanLoad<G, A>(options: Options, config: EtlConfig, env: Env<G, A>, inputFile: string)
    ensures var run := Process(options, config, env, inputFile);
            CreateIndex in run.stages <==>
              && PastGate(options, env, inputFile)
              && !options.dryRun
              && LoadSucceeded(LoadOf(options, config, env, env.fsys.read(inputFile).value))
              && config.createIndexes
  {
  }

  /** `fixed_count` of the repair step equals the `invalid_count` that
      gated it and the number of `invalid_indices`. */
  lemma RepairCountMatchesReport<G, A>(ops: GeometryOps<G>, ds: Dataset<G, A>)
    ensures Cleaner.FixInvalidGeometries(ops, ds).fixedCount == Validator.CheckGeometryValidity(ops, ds).invalidCount
    ensures Cleaner.FixInvalidGeometries(ops, ds).fixedCount == |Validator.CheckGeometryValidity(ops, ds).invalidIndices|
  {
  }
}
