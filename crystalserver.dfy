// Start-up decisions of the server (crystalserver.cpp): the world type and house rent period read
// from the configuration, the module-load guard and the exit code of run. The configuration
// values, the loaders' results and the database are inputs; the game setters they feed, logging
// and the console are left out.
module CrystalServer {
  import opened Wrappers
  import opened Text

  datatype WorldType = Open | Optional | Hardcore

  datatype RentPeriod = Daily | Weekly | Monthly | Yearly | Never

  const EXIT_SUCCESS: int := 0
  const EXIT_FAILURE: int := 1

  /** The spellings of each world type, lower case (crystalserver.cpp:144-153). */
  const OPEN_NAMES: set<string> := {"open", "2", "openpvp", "pvp", "normal"}
  const OPTIONAL_NAMES: set<string> := {"optional", "1", "optionalpvp", "safe", "nopvp", "no-pvp", "secure"}
  const HARDCORE_NAMES: set<string> := {"hardcore", "3", "hardcorepvp", "war", "pvp-enforced", "enforced"}

  /** setWorldType (crystalserver.cpp:140-162): the configured text, lower-cased, picks the world
      type; anything else fails initialisation with a message naming the text as configured. */
  function SetWorldType(config: string): (r: Result<WorldType, string>)
    ensures r.Success? <==> ToLower(config) in OPEN_NAMES + OPTIONAL_NAMES + HARDCORE_NAMES
    ensures r.Failure? ==> r.error == "Unknown world type: " + config + ", valid world types are: open, optional and hardcore"
  {
    var s := ToLower(config);
    if s in OPEN_NAMES then Success(Open)
    else if s in OPTIONAL_NAMES then Success(Optional)
    else if s in HARDCORE_NAMES then Success(Hardcore)
    else Failure("Unknown world type: " + config + ", valid world types are: open, optional and hardcore")
  }

  /** The name the failure message offers for each world type. */
  function WorldTypeName(t: WorldType): string {
    match t
    case Open => "open"
    case Optional => "optional"
    case Hardcore => "hardcore"
  }

  /** Each offered name, in any case ("Open", "OPTIONAL"), selects its world type. */
  lemma WorldTypeNamesSelect(t: WorldType, config: string)
    requires ToLower(config) == WorldTypeName(t)
    ensures SetWorldType(config) == Success(t)
  {
    WorldTypeSpellings(config);
  }

  /** The classification sees only the lower-cased text: configurations equal ignoring case
      succeed alike, with the same world type. */
  lemma WorldTypeIgnoresCase(a: string, b: string)
    requires EqualsIgnoreCase(a, b)
    ensures SetWorldType(a).Success? <==> SetWorldType(b).Success?
    ensures SetWorldType(a).Success? ==> SetWorldType(a) == SetWorldType(b)
  {
  }

  /** The three spelling lists share no entry, so the order of the if-chain never matters: each
      spelling selects the world type of its list. */
  lemma WorldTypeSpellings(config: string)
    ensures ToLower(config) in OPEN_NAMES ==> SetWorldType(config) == Success(Open)
    ensures ToLower(config) in OPTIONAL_NAMES ==> SetWorldType(config) == Success(Optional)
    ensures ToLower(config) in HARDCORE_NAMES ==> SetWorldType(config) == Success(Hardcore)
  {
    assert forall s :: s in OPEN_NAMES ==> s !in OPTIONAL_NAMES && s !in HARDCORE_NAMES;
    assert forall s :: s in OPTIONAL_NAMES ==> s !in HARDCORE_NAMES;
  }

  /** The rent period names, lower case (crystalserver.cpp:184-191). */
  function RentPeriodName(p: RentPeriod): Option<string> {
    match p
    case Yearly => Some("yearly")
    case Weekly => Some("weekly")
    case Monthly => Some("monthly")
    case Daily => Some("daily")
    case Never => None
  }

  /** setupHousesRent (crystalserver.cpp:180-197): the configured period, lower-cased; any other
      text means rent is never charged. */
  function SetupHousesRent(config: string): (r: RentPeriod)
    ensures r != Never ==> RentPeriodName(r) == Some(ToLower(config))
    ensures r == Never <==> ToLower(config) !in {"yearly", "weekly", "monthly", "daily"}
  {
    var s := ToLower(config);
    if s == "yearly" then Yearly
    else if s == "weekly" then Weekly
    else if s == "monthly" then Monthly
    else if s == "daily" then Daily
    else Never
  }

  /** Every named period, in any case ("Weekly", "DAILY"), reads back as itself. */
  lemma RentPeriodRoundTrip(p: RentPeriod, config: string)
    requires RentPeriodName(p).Some? && ToLower(config) == RentPeriodName(p).value
    ensures SetupHousesRent(config) == p
  {
  }

  /** modulesLoadHelper (crystalserver.cpp:355-360): a failed load stops initialisation with a
      message naming the module. */
  function ModulesLoadHelper(loaded: bool, moduleName: string): (r: Option<string>)
    ensures r.None? <==> loaded
    ensures r.Some? ==> r.value == "Cannot load: " + moduleName
  {
    if !loaded then Some("Cannot load: " + moduleName) else None
  }

  /** One modulesLoadHelper call: a loader's result and the module it names. */
  datatype ModuleLoad = ModuleLoad(loaded: bool, name: string)

  /** A run of modulesLoadHelper calls (crystalserver.cpp:324-346): the first failure stops the
      rest. */
  function LoadModules(steps: seq<ModuleLoad>): (r: Option<string>)
    decreases |steps|
  {
    if steps == [] then None
    else
      var first := ModulesLoadHelper(steps[0].loaded, steps[0].name);
      if first.Some? then first else LoadModules(steps[1..])
  }

  /** Loading fails exactly when some module fails, and then with the first failing module's
      message. */
  lemma {:induction false} LoadModulesMeaning(steps: seq<ModuleLoad>)
    ensures LoadModules(steps).None? <==> forall i :: 0 <= i < |steps| ==> steps[i].loaded
    ensures LoadModules(steps).Some? ==>
      exists i :: 0 <= i < |steps| && !steps[i].loaded && LoadModules(steps) == Some("Cannot load: " + steps[i].name) &&
        forall j :: 0 <= j < i ==> steps[j].loaded
    decreases |steps|
  {
    if steps != [] && steps[0].loaded {
      var rest := steps[1..];
      LoadModulesMeaning(rest);
      assert forall i :: 1 <= i < |steps| ==> steps[i] == rest[i - 1];
      if LoadModules(rest).Some? {
        var i :| 0 <= i < |rest| && !rest[i].loaded && LoadModules(rest) == Some("Cannot load: " + rest[i].name) &&
          forall j :: 0 <= j < i ==> rest[j].loaded;
        assert !steps[i + 1].loaded && forall j :: 0 <= j < i + 1 ==> steps[j].loaded;
      }
    }
  }

  /** What initialize depends on (crystalserver.cpp:62-118): whether the configuration loaded,
      the database's failure message if it fails, the module loads in order, the configured
      world type, the maps' failure message if they fail, and the configured rent period. */
  datatype Startup = Startup(configLoaded: bool, configFile: string, database: Option<string>,
                             modules: seq<ModuleLoad>, worldType: string, maps: Option<string>, rentPeriod: string)

  /** initialize: the first step that throws FailedToInitializeCrystalServer gives its message;
      otherwise the world type and the rent period it sets up. */
  function Initialize(s: Startup): (r: Result<(WorldType, RentPeriod), string>)
    ensures r.Success? ==> SetWorldType(s.worldType) == Success(r.value.0) && r.value.1 == SetupHousesRent(s.rentPeriod)
  {
    var config := ModulesLoadHelper(s.configLoaded, s.configFile);
    if config.Some? then Failure(config.value)
    else if s.database.Some? then Failure(s.database.value)
    else
      var modules := LoadModules(s.modules);
      if modules.Some? then Failure(modules.value)
      else
        var world := SetWorldType(s.worldType);
        if world.Failure? then Failure(world.error)
        else if s.maps.Some? then Failure(s.maps.value)
        else Success((world.value, SetupHousesRent(s.rentPeriod)))
  }

  /** initialize succeeds exactly when the configuration and every module load, the database
      connects, the world type is known and the maps load. */
  lemma InitializeSucceeds(s: Startup)
    ensures Initialize(s).Success? <==>
      s.configLoaded && s.database.None? && (forall i :: 0 <= i < |s.modules| ==> s.modules[i].loaded) &&
      SetWorldType(s.worldType).Success? && s.maps.None?
  {
    LoadModulesMeaning(s.modules);
  }

  /** run (crystalserver.cpp:42-60): EXIT_FAILURE when initialize or the main loop throws, and
      otherwise the success code that shutdown exits with. */
  function Run(s: Startup, mainLoopThrows: bool): (code: int)
    ensures code == EXIT_SUCCESS || code == EXIT_FAILURE
  {
    if Initialize(s).Failure? || mainLoopThrows then EXIT_FAILURE else EXIT_SUCCESS
  }

  /** The server exits successfully exactly when every start-up step succeeds and the main loop
      ends without an exception; an unknown world type alone is enough to fail. */
  lemma RunExitCode(s: Startup, mainLoopThrows: bool)
    ensures Run(s, mainLoopThrows) == EXIT_SUCCESS <==>
      s.configLoaded && s.database.None? && (forall i :: 0 <= i < |s.modules| ==> s.modules[i].loaded) &&
      SetWorldType(s.worldType).Success? && s.maps.None? && !mainLoopThrows
    ensures SetWorldType(s.worldType).Failure? ==> Run(s, mainLoopThrows) == EXIT_FAILURE
  {
    InitializeSucceeds(s);
  }
}
