/**
  Loading and validating the configuration: what a configuration that Load returns
  is known to satisfy, and where its database may lie.
  */
module Configuration {
  import opened Shared
  import opened Text
  import opened Durations
  import opened Paths

  const DEFAULT_DATABASE := "infrapilot.db"

  const MILLISECOND: int := 1_000_000

  datatype Setting = ShutdownTimeout | HeartbeatInterval | BusyTimeout

  const SETTINGS: seq<Setting> := [ShutdownTimeout, HeartbeatInterval, BusyTimeout]

  function FieldName(s: Setting): string {
    match s
    case ShutdownTimeout => "agent.shutdown_timeout"
    case HeartbeatInterval => "agent.heartbeat_interval"
    case BusyTimeout => "storage.busy_timeout"
  }

  function EnvName(s: Setting): string {
    match s
    case ShutdownTimeout => "INFRAPILOT_SHUTDOWN_TIMEOUT"
    case HeartbeatInterval => "INFRAPILOT_HEARTBEAT_INTERVAL"
    case BusyTimeout => "INFRAPILOT_BUSY_TIMEOUT"
  }

  function Minimum(s: Setting): int {
    match s
    case ShutdownTimeout => SECOND
    case HeartbeatInterval => SECOND
    case BusyTimeout => 100 * MILLISECOND
  }

  function Maximum(s: Setting): int {
    match s
    case ShutdownTimeout => 10 * 60 * SECOND
    case HeartbeatInterval => 24 * 60 * 60 * SECOND
    case BusyTimeout => 60 * SECOND
  }

  /** The settings the properties need. A configuration always has all three durations. */
  datatype Config = Config(
    dataDir: string,
    storagePath: string,
    bindAddress: string,
    level: string,
    format: string,
    shutdown: int,
    heartbeat: int,
    busy: int)
  {
    function Get(s: Setting): int {
      match s
      case ShutdownTimeout => shutdown
      case HeartbeatInterval => heartbeat
      case BusyTimeout => busy
    }

    function Set(s: Setting, d: int): (c: Config)
      ensures c.Get(s) == d && forall t :: t != s ==> c.Get(t) == Get(t)
      ensures c.dataDir == dataDir && c.storagePath == storagePath && c.bindAddress == bindAddress
      ensures c.level == level && c.format == format
    {
      match s
      case ShutdownTimeout => this.(shutdown := d)
      case HeartbeatInterval => this.(heartbeat := d)
      case BusyTimeout => this.(busy := d)
    }
  }

  /** What the libraries and the environment decide: which log levels and formats are
      known, how standard durations parse, and which variables are set. */
  datatype World = World(
    knownLevel: string -> bool,
    knownFormat: string -> bool,
    standard: string -> Option<int>,
    env: map<string, string>)

  /** A relative path is resolved inside the data directory; an absolute one is used
      as given, cleaned; an empty one means the default name. */
  function DatabasePath(c: Config): Resolved {
    var trimmed := TrimSpace(c.storagePath);
    var path := if trimmed == "" then DEFAULT_DATABASE else trimmed;
    if IsAbs(path) then Inside(Clean(path)) else ResolveInDir(c.dataDir, path)
  }

  datatype Complaint =
    | UnknownLevel
    | UnknownFormat
    | EmptyDataDir
    | RelativeDataDir
    | Range(problem: Problem)
    | EmptyStoragePath
    | StoragePath(error: PathError)

  datatype Verdict = Fine | EmptyBindAddress | Rejected(complaints: seq<Complaint>)

  function AppendRange(complaints: seq<Complaint>, c: Config, s: Setting): seq<Complaint> {
    var problems := AppendRangeProblem([], FieldName(s), c.Get(s), Minimum(s), Maximum(s));
    if problems == [] then complaints else complaints + [Range(problems[0])]
  }

  predicate InRange(c: Config, s: Setting) {
    Minimum(s) <= c.Get(s) <= Maximum(s)
  }

  /** What is wrong with a duration that is out of range. */
  function RangeProblem(c: Config, s: Setting): Problem {
    if c.Get(s) <= 0 then NotPositive(FieldName(s))
    else if c.Get(s) < Minimum(s) then TooSmall(FieldName(s))
    else TooLarge(FieldName(s))
  }

  function OutOfRange(c: Config, s: Setting): seq<Complaint> {
    if InRange(c, s) then [] else [Range(RangeProblem(c, s))]
  }

  lemma AppendRangeAdds(complaints: seq<Complaint>, c: Config, s: Setting)
    ensures AppendRange(complaints, c, s)
            == complaints + OutOfRange(c, s)
  {
  }

  /** Every condition that must be reported, each by its own complaint. */
  ghost predicate Deserved(w: World, c: Config, complaint: Complaint) {
    match complaint
    case UnknownLevel => !w.knownLevel(c.level)
    case UnknownFormat => !w.knownFormat(c.format)
    case EmptyDataDir => TrimSpace(c.dataDir) == ""
    case RelativeDataDir => TrimSpace(c.dataDir) != "" && !IsAbs(c.dataDir)
    case Range(problem) => exists s :: !InRange(c, s) && problem == RangeProblem(c, s)
    case EmptyStoragePath => TrimSpace(c.storagePath) == ""
    case StoragePath(error) => TrimSpace(c.storagePath) != "" && DatabasePath(c) == Refused(error)
  }

  ghost predicate Usable(w: World, c: Config) {
    && w.knownLevel(c.level) && w.knownFormat(c.format)
    && TrimSpace(c.dataDir) != "" && IsAbs(c.dataDir)
    && c.bindAddress != ""
    && (forall s :: InRange(c, s))
    && TrimSpace(c.storagePath) != "" && DatabasePath(c).Inside?
  }

  lemma AllRangesAdd(c: Config, before: seq<Complaint>)
    ensures AppendRange(AppendRange(AppendRange(before, c, ShutdownTimeout), c, HeartbeatInterval), c, BusyTimeout)
            == before + (OutOfRange(c, ShutdownTimeout) + OutOfRange(c, HeartbeatInterval) + OutOfRange(c, BusyTimeout))
  {
    var one := AppendRange(before, c, ShutdownTimeout);
    AppendRangeAdds(before, c, ShutdownTimeout);
    AppendRangeAdds(one, c, HeartbeatInterval);
    AppendRangeAdds(AppendRange(one, c, HeartbeatInterval), c, BusyTimeout);
  }

  lemma OutOfRangeExactly(w: World, c: Config)
    ensures
      var added := OutOfRange(c, ShutdownTimeout) + OutOfRange(c, HeartbeatInterval) + OutOfRange(c, BusyTimeout);
      && (forall complaint :: complaint in added <==> complaint.Range? && Deserved(w, c, complaint))
      && (added == [] <==> forall s :: InRange(c, s))
  {
    var added := OutOfRange(c, ShutdownTimeout) + OutOfRange(c, HeartbeatInterval) + OutOfRange(c, BusyTimeout);
    forall s
      ensures !InRange(c, s) ==> Range(RangeProblem(c, s)) in added
    {
      match s
      case ShutdownTimeout =>
      case HeartbeatInterval =>
      case BusyTimeout =>
    }
  }

  lemma RangeComplaints(w: World, c: Config, before: seq<Complaint>, after: seq<Complaint>)
    requires after == AppendRange(AppendRange(AppendRange(before, c, ShutdownTimeout),
                                              c, HeartbeatInterval), c, BusyTimeout)
    ensures forall complaint :: complaint in after <==>
              complaint in before || (complaint.Range? && Deserved(w, c, complaint))
    ensures after == before <==> forall s :: InRange(c, s)
  {
    AllRangesAdd(c, before);
    OutOfRangeExactly(w, c);
    var added := OutOfRange(c, ShutdownTimeout) + OutOfRange(c, HeartbeatInterval) + OutOfRange(c, BusyTimeout);
    assert after == before + added;
    assert after == before ==> |added| == 0;
  }

  ghost predicate Early(complaint: Complaint) {
    complaint.UnknownLevel? || complaint.UnknownFormat? || complaint.EmptyDataDir? || complaint.RelativeDataDir?
  }

  method CheckLoggingAndDataDir(w: World, c: Config) returns (found: seq<Complaint>)
    ensures forall complaint :: complaint in found <==> Early(complaint) && Deserved(w, c, complaint)
    ensures found == [] <==>
              w.knownLevel(c.level) && w.knownFormat(c.format) && TrimSpace(c.dataDir) != "" && IsAbs(c.dataDir)
  {
    found := [];
    if !w.knownLevel(c.level) {
      found := found + [UnknownLevel];
    }
    if !w.knownFormat(c.format) {
      found := found + [UnknownFormat];
    }
    if TrimSpace(c.dataDir) == "" {
      found := found + [EmptyDataDir];
    } else if !IsAbs(c.dataDir) {
      found := found + [RelativeDataDir];
    }
  }

  method CheckStoragePath(w: World, c: Config) returns (found: seq<Complaint>)
    ensures forall complaint :: complaint in found <==>
              (complaint.EmptyStoragePath? || complaint.StoragePath?) && Deserved(w, c, complaint)
    ensures found == [] <==> TrimSpace(c.storagePath) != "" && DatabasePath(c).Inside?
  {
    found := [];
    var path := DatabasePath(c);
    if TrimSpace(c.storagePath) == "" {
      found := [EmptyStoragePath];
    } else if path.Refused? {
      found := [StoragePath(path.error)];
    }
  }

  /** Reports every problem there is, and only those, unless the bind address is
      empty, which ends the check at once. */
  method Validate(w: World, c: Config) returns (verdict: Verdict)
    ensures verdict == Fine <==> Usable(w, c)
    ensures verdict == EmptyBindAddress <==> c.bindAddress == ""
    ensures verdict.Rejected? ==>
              forall complaint :: complaint in verdict.complaints <==> Deserved(w, c, complaint)
  {
    var early := CheckLoggingAndDataDir(w, c);
    if c.bindAddress == "" {
      return EmptyBindAddress;
    }
    var found := AppendRange(early, c, ShutdownTimeout);
    found := AppendRange(found, c, HeartbeatInterval);
    found := AppendRange(found, c, BusyTimeout);
    RangeComplaints(w, c, early, found);
    var late := CheckStoragePath(w, c);
    ghost var ranged := found;
    found := found + late;
    verdict := if found == [] then Fine else Rejected(found);
    assert found == [] <==> early == [] && ranged == early && late == [] by {
      assert |found| == |ranged| + |late|;
      GrowsOnly(early, c);
    }
    forall complaint
      ensures complaint in found <==> Deserved(w, c, complaint)
    {
      assert complaint in found <==> complaint in ranged || complaint in late;
    }
  }

  lemma GrowsOnly(before: seq<Complaint>, c: Config)
    ensures |before| <= |AppendRange(AppendRange(AppendRange(before, c, ShutdownTimeout),
                                                 c, HeartbeatInterval), c, BusyTimeout)|
  {
  }

  // ------------------------------------------------------------------
  // Loading
  // ------------------------------------------------------------------

  /** A variable that is unset or blank leaves the previous value alone. */
  function Lookup(w: World, name: string): Option<string> {
    if name in w.env && TrimSpace(w.env[name]) != "" then Some(TrimSpace(w.env[name])) else None
  }

  /** The variable of a duration setting, if set, parses as a duration. */
  predicate Parses(w: World, s: Setting) {
    var v := Lookup(w, EnvName(s));
    v.Some? ==> ParseDuration(w.standard, v.value).Some?
  }

  /** A duration after the overlay: the variable's if set, else the one before. */
  function Overlaid(w: World, base: Config, s: Setting): int
    requires Parses(w, s)
  {
    match Lookup(w, EnvName(s))
    case None => base.Get(s)
    case Some(v) => ParseDuration(w.standard, v).value
  }

  /** A text setting after the overlay: the variable's value if set, else the one before. */
  function TextAfter(w: World, name: string, before: string): string {
    match Lookup(w, name)
    case None => before
    case Some(v) => v
  }

  method ApplyEnvStrings(w: World, base: Config) returns (c: Config)
    ensures forall s :: c.Get(s) == base.Get(s)
    ensures c.dataDir == base.dataDir && c.bindAddress == base.bindAddress
    ensures c.level == TextAfter(w, "INFRAPILOT_LOG_LEVEL", base.level)
    ensures c.format == TextAfter(w, "INFRAPILOT_LOG_FORMAT", base.format)
    ensures c.storagePath == TextAfter(w, "INFRAPILOT_STORAGE_PATH", base.storagePath)
  {
    c := base;
    var level := Lookup(w, "INFRAPILOT_LOG_LEVEL");
    if level.Some? {
      c := c.(level := level.value);
    }
    var format := Lookup(w, "INFRAPILOT_LOG_FORMAT");
    if format.Some? {
      c := c.(format := format.value);
    }
    var path := Lookup(w, "INFRAPILOT_STORAGE_PATH");
    if path.Some? {
      c := c.(storagePath := path.value);
    }
  }

  /** Overlays the environment; a duration that does not parse is an error. */
  method ApplyEnv(w: World, base: Config) returns (ok: bool, c: Config)
    ensures ok <==> forall s :: Parses(w, s)
    ensures ok ==> forall s :: c.Get(s) == Overlaid(w, base, s)
    ensures c.dataDir == base.dataDir && c.bindAddress == base.bindAddress
    ensures c.level == TextAfter(w, "INFRAPILOT_LOG_LEVEL", base.level)
    ensures c.format == TextAfter(w, "INFRAPILOT_LOG_FORMAT", base.format)
    ensures c.storagePath == TextAfter(w, "INFRAPILOT_STORAGE_PATH", base.storagePath)
  {
    c := ApplyEnvStrings(w, base);
    EverySettingIsListed();
    ghost var overlaid := c;
    for i := 0 to |SETTINGS|
      invariant c.dataDir == base.dataDir && c.bindAddress == base.bindAddress
      invariant c.storagePath == overlaid.storagePath && c.level == overlaid.level && c.format == overlaid.format
      invariant forall s :: s in SETTINGS[..i] ==> Parses(w, s) && c.Get(s) == Overlaid(w, base, s)
      invariant forall s :: s !in SETTINGS[..i] ==> c.Get(s) == base.Get(s)
    {
      var s := SETTINGS[i];
      assert s !in SETTINGS[..i];
      assert SETTINGS[..i + 1] == SETTINGS[..i] + [s];
      var v := Lookup(w, EnvName(s));
      if v.Some? {
        var parsed := ParseDuration(w.standard, v.value);
        if parsed.None? {
          assert !Parses(w, s);
          return false, c;
        }
        c := c.Set(s, parsed.value);
      }
    }
    assert SETTINGS[..|SETTINGS|] == SETTINGS;
    ok := true;
  }

  lemma EverySettingIsListed()
    ensures forall s :: s in SETTINGS
  {
    forall s
      ensures s in SETTINGS
    {
      match s
      case ShutdownTimeout => assert SETTINGS[0] == s;
      case HeartbeatInterval => assert SETTINGS[1] == s;
      case BusyTimeout => assert SETTINGS[2] == s;
    }
  }

  /** The database is at a clean absolute path: the one given, if it was absolute, and
      otherwise inside the data directory. */
  ghost predicate DatabasePlaced(c: Config) {
    var path := TrimSpace(c.storagePath);
    var db := DatabasePath(c);
    && db.Inside? && IsAbs(db.path) && Clean(db.path) == db.path
    && if IsAbs(path) then Components(db.path) == Components(path)
       else Contained(c.dataDir, db.path) && Components(db.path) == Components(c.dataDir + "/" + path)
  }

  lemma UsableMeansPlaced(w: World, c: Config)
    requires Usable(w, c)
    ensures DatabasePlaced(c)
  {
    var path := TrimSpace(c.storagePath);
    if IsAbs(path) {
      CleanIsNormal(path);
    } else {
      ResolveIsContainment(c.dataDir, path);
    }
  }

  ghost predicate AllParse(w: World) {
    forall s :: Parses(w, s)
  }

  /** The environment on top of the file on top of the defaults. */
  function Layered(w: World, resolvedDataDir: string, base: Config): Config
    requires AllParse(w)
  {
    var dataDir := TrimSpace(base.dataDir);
    Config(if dataDir == "" then resolvedDataDir else dataDir,
           TextAfter(w, "INFRAPILOT_STORAGE_PATH", base.storagePath),
           base.bindAddress,
           TextAfter(w, "INFRAPILOT_LOG_LEVEL", base.level),
           TextAfter(w, "INFRAPILOT_LOG_FORMAT", base.format),
           Overlaid(w, base, ShutdownTimeout),
           Overlaid(w, base, HeartbeatInterval),
           Overlaid(w, base, BusyTimeout))
  }

  /** What an environment variable makes of a text and of a duration setting. */
  ghost predicate SetsText(w: World, name: string, before: string, after: string) {
    after == if name in w.env && TrimSpace(w.env[name]) != "" then TrimSpace(w.env[name]) else before
  }

  ghost predicate SetsDuration(w: World, name: string, before: int, after: int) {
    if name in w.env && TrimSpace(w.env[name]) != "" then
      var v := TrimSpace(w.env[name]);
      if w.standard(v).Some? then after == w.standard(v).value
      else Atoi(v).Some? && after == Wrap(Atoi(v).value * SECOND)
    else
      after == before
  }

  /** The layers, setting by setting: the data directory from the file, trimmed, or else as
      resolved; and each other setting from its own variable, or else from the file. */
  lemma LayersSpelledOut(w: World, resolvedDataDir: string, base: Config)
    requires AllParse(w)
    ensures
      var c := Layered(w, resolvedDataDir, base);
      && c.dataDir == (if TrimSpace(base.dataDir) != "" then TrimSpace(base.dataDir) else resolvedDataDir)
      && c.bindAddress == base.bindAddress
      && SetsText(w, "INFRAPILOT_STORAGE_PATH", base.storagePath, c.storagePath)
      && SetsText(w, "INFRAPILOT_LOG_LEVEL", base.level, c.level)
      && SetsText(w, "INFRAPILOT_LOG_FORMAT", base.format, c.format)
      && SetsDuration(w, "INFRAPILOT_SHUTDOWN_TIMEOUT", base.shutdown, c.shutdown)
      && SetsDuration(w, "INFRAPILOT_HEARTBEAT_INTERVAL", base.heartbeat, c.heartbeat)
      && SetsDuration(w, "INFRAPILOT_BUSY_TIMEOUT", base.busy, c.busy)
  {
    assert Parses(w, ShutdownTimeout) && Parses(w, HeartbeatInterval) && Parses(w, BusyTimeout);
  }

  /** The bounds on the durations, in seconds: 1 to 600, 1 to 86400, and a tenth to 60. */
  lemma BoundsSpelledOut(c: Config)
    ensures
      (forall s :: InRange(c, s)) <==>
        && SECOND <= c.shutdown <= 600 * SECOND
        && SECOND <= c.heartbeat <= 86400 * SECOND
        && SECOND <= 10 * c.busy <= 600 * SECOND
  {
    if forall s :: InRange(c, s) {
      assert InRange(c, ShutdownTimeout) && InRange(c, HeartbeatInterval) && InRange(c, BusyTimeout);
    }
    forall s
      ensures InRange(c, s) <==>
                match s
                case ShutdownTimeout => SECOND <= c.shutdown <= 600 * SECOND
                case HeartbeatInterval => SECOND <= c.heartbeat <= 86400 * SECOND
                case BusyTimeout => SECOND <= 10 * c.busy <= 600 * SECOND
    {
    }
  }

  /** A blank storage path means the default name in the data directory. */
  lemma BlankMeansDefaultName(c: Config)
    requires TrimSpace(c.storagePath) == ""
    ensures DatabasePath(c) == ResolveInDir(c.dataDir, "infrapilot.db")
  {
  }

  /** Resolves defaults, the file's overlay and the environment, then validates. The
      file is given by what it makes of the defaults, or nothing if it is unusable. */
  method Load(w: World, resolvedDataDir: string, defaults: Config, file: Config -> Option<Config>)
    returns (loaded: Option<Config>)
    ensures
      var base := file(defaults.(dataDir := resolvedDataDir));
      && (loaded.Some? <==> base.Some? && AllParse(w) && Usable(w, Layered(w, resolvedDataDir, base.value)))
      && (loaded.Some? ==> loaded.value == Layered(w, resolvedDataDir, base.value))
    ensures loaded.Some? ==> DatabasePlaced(loaded.value)
  {
    var c := defaults.(dataDir := resolvedDataDir);
    var base := file(c);
    if base.None? {
      return None;
    }
    var ok;
    ok, c := ApplyEnv(w, base.value);
    if !ok {
      return None;
    }
    assert c.shutdown == c.Get(ShutdownTimeout) && c.heartbeat == c.Get(HeartbeatInterval)
           && c.busy == c.Get(BusyTimeout);
    c := c.(dataDir := TrimSpace(c.dataDir));
    if c.dataDir == "" {
      c := c.(dataDir := resolvedDataDir);
    }
    assert c == Layered(w, resolvedDataDir, base.value);
    var verdict := Validate(w, c);
    if verdict == Fine {
      UsableMeansPlaced(w, c);
      loaded := Some(c);
    } else {
      loaded := None;
    }
  }

  /** A timeout of a usable configuration may not be the number of seconds that was
      written: the wrapped product can fall into the allowed range. */
  lemma UsableTimeoutNotAsWritten(c: Config)
    ensures InRange(c.Set(HeartbeatInterval, Wrap((INVERSE + 1) * SECOND)), HeartbeatInterval)
    ensures !(Minimum(HeartbeatInterval) <= (INVERSE + 1) * SECOND <= Maximum(HeartbeatInterval))
  {
    AcceptedButNotIntended(Maximum(HeartbeatInterval));
  }
}
