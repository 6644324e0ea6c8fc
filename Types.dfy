/**
 * The value types shared by the parser and the applier, and the configuration schema's
 * defaulting transform (`src/types.ts`). Validation that the source leaves to the schema
 * library on untyped JSON is modelled only where it is more than a type check: the string
 * enumeration for patch strategies and the numeric bounds of the configuration.
 */
module Types {
  import opened Wrappers

  /** The four patch strategies. */
  datatype PatchStrategy = Replace | NewUnified | MultiSearchReplace | Unified

  function StrategyName(p: PatchStrategy): string {
    match p
    case Replace => "replace"
    case NewUnified => "new-unified"
    case MultiSearchReplace => "multi-search-replace"
    case Unified => "unified"
  }

  /** `PatchStrategySchema.safeParse(s)` on a string: only the four exact names are accepted. */
  function ParseStrategy(s: string): (r: Option<PatchStrategy>)
    ensures r.Some? ==> StrategyName(r.value) == s
    ensures r.None? <==> forall p: PatchStrategy :: StrategyName(p) != s
  {
    if s == "replace" then Some(Replace)
    else if s == "new-unified" then Some(NewUnified)
    else if s == "multi-search-replace" then Some(MultiSearchReplace)
    else if s == "unified" then Some(Unified)
    else None
  }

  /** Every strategy's name parses back to that strategy. */
  lemma ParseStrategyName(p: PatchStrategy)
    ensures ParseStrategy(StrategyName(p)) == Some(p)
  {
  }

  /** The schema with its `.default('replace')`: a missing value becomes `replace`. */
  function ParseStrategyOrDefault(s: Option<string>): (r: Option<PatchStrategy>)
    ensures s.None? ==> r == Some(Replace)
    ensures s.Some? ==> (r.Some? <==> s.value in {"replace", "new-unified", "multi-search-replace", "unified"})
  {
    match s
    case None => Some(Replace)
    case Some(v) => ParseStrategy(v)
  }

  /** One file operation parsed from a fenced block. */
  datatype FileOperation =
    | Write(path: string, content: string, patchStrategy: PatchStrategy)
    | Delete(path: string)
    | Rename(from: string, to: string)

  /** The trailing metadata block: `projectId` and `uuid` are required, the rest optional. */
  datatype ControlYaml = ControlYaml(
    projectId: string,
    uuid: string,
    changeSummary: Option<seq<map<string, string>>>,
    gitCommitMsg: Option<string>,
    promptSummary: Option<string>)

  datatype ParsedResponse = ParsedResponse(
    control: ControlYaml,
    operations: seq<FileOperation>,
    reasoning: seq<string>)

  // ---------------------------------------------------------------------------------------
  // Configuration

  datatype LogLevel = Silent | Error | Warn | Info | Debug
  datatype PreferredStrategy = PreferAuto | PreferReplace | PreferNewUnified | PreferMultiSearchReplace
  datatype ApprovalMode = AutoApproval | ManualApproval
  datatype BranchTemplate = UuidBranch | CommitMsgBranch

  datatype CoreConfig = CoreConfig(logLevel: LogLevel, enableNotifications: bool, watchConfig: bool)
  datatype WatcherConfig = WatcherConfig(clipboardPollInterval: int, preferredStrategy: PreferredStrategy)
  datatype PatchConfig = PatchConfig(
    approvalMode: ApprovalMode,
    approvalOnErrorCount: int,
    linter: string,
    preCommand: string,
    postCommand: string,
    minFileChanges: int,
    maxFileChanges: Option<int>)
  datatype GitConfig = GitConfig(autoGitBranch: bool, gitBranchPrefix: string, gitBranchTemplate: BranchTemplate)
  datatype Config = Config(projectId: string, core: CoreConfig, watcher: WatcherConfig, patch: PatchConfig, git: GitConfig)

  /** The input accepted by the deep-partial schema: every field may be missing, and
      numbers are JavaScript numbers, so they may be fractional. */
  datatype CoreInput = CoreInput(logLevel: Option<LogLevel>, enableNotifications: Option<bool>, watchConfig: Option<bool>)
  datatype WatcherInput = WatcherInput(clipboardPollInterval: Option<real>, preferredStrategy: Option<PreferredStrategy>)
  datatype PatchInput = PatchInput(
    approvalMode: Option<ApprovalMode>,
    approvalOnErrorCount: Option<real>,
    linter: Option<string>,
    preCommand: Option<string>,
    postCommand: Option<string>,
    minFileChanges: Option<real>,
    maxFileChanges: Option<real>)
  datatype GitInput = GitInput(autoGitBranch: Option<bool>, gitBranchPrefix: Option<string>, gitBranchTemplate: Option<BranchTemplate>)
  datatype ConfigInput = ConfigInput(
    projectId: Option<string>,
    core: Option<CoreInput>,
    watcher: Option<WatcherInput>,
    patch: Option<PatchInput>,
    git: Option<GitInput>)

  /** `z.number().int()` */
  predicate IsInteger(x: real) {
    x.Floor as real == x
  }

  /** `z.number().int().min(lo)` on a value that may be missing and has a default. */
  function IntegerAtLeast(x: Option<real>, lo: int, default: int): Option<int>
    requires default >= lo
  {
    var v := x.GetOr(default as real);
    if IsInteger(v) && v >= lo as real then Some(v.Floor) else None
  }

  function ParseCore(c: Option<CoreInput>): CoreConfig {
    var c := c.GetOr(CoreInput(None, None, None));
    CoreConfig(c.logLevel.GetOr(Info), c.enableNotifications.GetOr(true), c.watchConfig.GetOr(true))
  }

  function ParseWatcher(w: Option<WatcherInput>): Option<WatcherConfig> {
    var w := w.GetOr(WatcherInput(None, None));
    match IntegerAtLeast(w.clipboardPollInterval, 1, 2000)
    case None => None
    case Some(interval) => Some(WatcherConfig(interval, w.preferredStrategy.GetOr(PreferAuto)))
  }

  function ParsePatch(p: Option<PatchInput>): Option<PatchConfig> {
    var p := p.GetOr(PatchInput(None, None, None, None, None, None, None));
    var errorCount := IntegerAtLeast(p.approvalOnErrorCount, 0, 0);
    var minChanges := IntegerAtLeast(p.minFileChanges, 0, 0);
    var maxChanges := if p.maxFileChanges.None? then Some(None)
                      else match IntegerAtLeast(p.maxFileChanges, 1, 1)
                           case None => None
                           case Some(n) => Some(Some(n));
    if errorCount.None? || minChanges.None? || maxChanges.None? then None
    else Some(PatchConfig(
      p.approvalMode.GetOr(AutoApproval), errorCount.value, p.linter.GetOr("bun tsc --noEmit"),
      p.preCommand.GetOr(""), p.postCommand.GetOr(""), minChanges.value, maxChanges.value))
  }

  function ParseGit(g: Option<GitInput>): GitConfig {
    var g := g.GetOr(GitInput(None, None, None));
    GitConfig(g.autoGitBranch.GetOr(false), g.gitBranchPrefix.GetOr("relay/"), g.gitBranchTemplate.GetOr(CommitMsgBranch))
  }

  /** The bounds every configuration produced by the schema satisfies. */
  predicate ValidConfig(c: Config) {
    && c.projectId != ""
    && c.watcher.clipboardPollInterval >= 1
    && c.patch.approvalOnErrorCount >= 0
    && c.patch.minFileChanges >= 0
    && (c.patch.maxFileChanges.Some? ==> c.patch.maxFileChanges.value >= 1)
  }

  /** `ConfigSchema.parse`: `projectId` must be a non-empty string; each missing section,
      and each missing field of a present section, takes its default. */
  function ParseConfig(input: ConfigInput): (r: Option<Config>)
    ensures r.Some? ==> ValidConfig(r.value)
    ensures r.Some? ==> Some(r.value.projectId) == input.projectId
    ensures input.projectId.None? || input.projectId == Some("") ==> r.None?
  {
    if input.projectId.None? || input.projectId.value == "" then None
    else
      match (ParseWatcher(input.watcher), ParsePatch(input.patch))
      case (Some(w), Some(p)) => Some(Config(input.projectId.value, ParseCore(input.core), w, p, ParseGit(input.git)))
      case _ => None
  }

  function DefaultConfig(projectId: string): Config {
    Config(
      projectId,
      CoreConfig(Info, true, true),
      WatcherConfig(2000, PreferAuto),
      PatchConfig(AutoApproval, 0, "bun tsc --noEmit", "", "", 0, None),
      GitConfig(false, "relay/", CommitMsgBranch))
  }

  /** A configuration that gives only a project id gets every default. */
  lemma ParseConfigDefaults(projectId: string)
    requires projectId != ""
    ensures ParseConfig(ConfigInput(Some(projectId), None, None, None, None)) == Some(DefaultConfig(projectId))
  {
  }

  /** Each field of the `core` section is the one given, or its default when the field or the
      whole section is missing. */
  lemma ParseConfigCoreFields(input: ConfigInput)
    requires ParseConfig(input).Some?
    ensures input.core.None? ==> ParseConfig(input).value.core == CoreConfig(Info, true, true)
    ensures input.core.Some? ==>
      && ParseConfig(input).value.core.logLevel == input.core.value.logLevel.GetOr(Info)
      && ParseConfig(input).value.core.enableNotifications == input.core.value.enableNotifications.GetOr(true)
      && ParseConfig(input).value.core.watchConfig == input.core.value.watchConfig.GetOr(true)
  {
  }

  /** The same for the `watcher` section: the poll interval defaults to 2000, the preferred
      strategy to `auto`. */
  lemma ParseConfigWatcherFields(input: ConfigInput)
    requires ParseConfig(input).Some?
    ensures input.watcher.None? ==> ParseConfig(input).value.watcher == WatcherConfig(2000, PreferAuto)
    ensures input.watcher.Some? ==>
      && ParseConfig(input).value.watcher.clipboardPollInterval as real == input.watcher.value.clipboardPollInterval.GetOr(2000.0)
      && ParseConfig(input).value.watcher.preferredStrategy == input.watcher.value.preferredStrategy.GetOr(PreferAuto)
  {
  }

  /** The same for the `patch` section; `maxFileChanges` has no default and stays missing. */
  lemma ParseConfigPatchFields(input: ConfigInput)
    requires ParseConfig(input).Some?
    ensures input.patch.None? ==>
      ParseConfig(input).value.patch == PatchConfig(AutoApproval, 0, "bun tsc --noEmit", "", "", 0, None)
    ensures input.patch.Some? ==>
      && ParseConfig(input).value.patch.approvalMode == input.patch.value.approvalMode.GetOr(AutoApproval)
      && ParseConfig(input).value.patch.approvalOnErrorCount as real == input.patch.value.approvalOnErrorCount.GetOr(0.0)
      && ParseConfig(input).value.patch.linter == input.patch.value.linter.GetOr("bun tsc --noEmit")
      && ParseConfig(input).value.patch.preCommand == input.patch.value.preCommand.GetOr("")
      && ParseConfig(input).value.patch.postCommand == input.patch.value.postCommand.GetOr("")
      && ParseConfig(input).value.patch.minFileChanges as real == input.patch.value.minFileChanges.GetOr(0.0)
      && (input.patch.value.maxFileChanges.None? <==> ParseConfig(input).value.patch.maxFileChanges.None?)
      && (input.patch.value.maxFileChanges.Some? ==>
            ParseConfig(input).value.patch.maxFileChanges.value as real == input.patch.value.maxFileChanges.value)
  {
  }

  /** The same for the `git` section. */
  lemma ParseConfigGitFields(input: ConfigInput)
    requires ParseConfig(input).Some?
    ensures input.git.None? ==> ParseConfig(input).value.git == GitConfig(false, "relay/", CommitMsgBranch)
    ensures input.git.Some? ==>
      && ParseConfig(input).value.git.autoGitBranch == input.git.value.autoGitBranch.GetOr(false)
      && ParseConfig(input).value.git.gitBranchPrefix == input.git.value.gitBranchPrefix.GetOr("relay/")
      && ParseConfig(input).value.git.gitBranchTemplate == input.git.value.gitBranchTemplate.GetOr(CommitMsgBranch)
  {
  }

  /** A configuration is accepted exactly when the `projectId` is non-empty and every number
      given is an integer within its bound; no other field can reject it. */
  lemma ParseConfigAcceptedIff(input: ConfigInput)
    ensures ParseConfig(input).Some? <==>
      && input.projectId.Some? && input.projectId.value != ""
      && (input.watcher.Some? && input.watcher.value.clipboardPollInterval.Some? ==>
            IsInteger(input.watcher.value.clipboardPollInterval.value) && input.watcher.value.clipboardPollInterval.value >= 1.0)
      && (input.patch.Some? && input.patch.value.approvalOnErrorCount.Some? ==>
            IsInteger(input.patch.value.approvalOnErrorCount.value) && input.patch.value.approvalOnErrorCount.value >= 0.0)
      && (input.patch.Some? && input.patch.value.minFileChanges.Some? ==>
            IsInteger(input.patch.value.minFileChanges.value) && input.patch.value.minFileChanges.value >= 0.0)
      && (input.patch.Some? && input.patch.value.maxFileChanges.Some? ==>
            IsInteger(input.patch.value.maxFileChanges.value) && input.patch.value.maxFileChanges.value >= 1.0)
  {
  }

  /** The full input that states every field of `c`. */
  function ConfigAsInput(c: Config): ConfigInput {
    ConfigInput(
      Some(c.projectId),
      Some(CoreInput(Some(c.core.logLevel), Some(c.core.enableNotifications), Some(c.core.watchConfig))),
      Some(WatcherInput(Some(c.watcher.clipboardPollInterval as real), Some(c.watcher.preferredStrategy))),
      Some(PatchInput(
        Some(c.patch.approvalMode), Some(c.patch.approvalOnErrorCount as real), Some(c.patch.linter),
        Some(c.patch.preCommand), Some(c.patch.postCommand), Some(c.patch.minFileChanges as real),
        match c.patch.maxFileChanges case None => None case Some(n) => Some(n as real))),
      Some(GitInput(Some(c.git.autoGitBranch), Some(c.git.gitBranchPrefix), Some(c.git.gitBranchTemplate))))
  }

  /** Values that are present and within bounds are kept: a valid configuration, written out
      in full, parses back to itself. */
  lemma ParseConfigRoundTrip(c: Config)
    requires ValidConfig(c)
    ensures ParseConfig(ConfigAsInput(c)) == Some(c)
  {
    var i := ConfigAsInput(c);
    assert (c.watcher.clipboardPollInterval as real).Floor == c.watcher.clipboardPollInterval;
    assert (c.patch.approvalOnErrorCount as real).Floor == c.patch.approvalOnErrorCount;
    assert (c.patch.minFileChanges as real).Floor == c.patch.minFileChanges;
    assert ParseWatcher(i.watcher) == Some(c.watcher);
    assert ParsePatch(i.patch) == Some(c.patch);
  }

  /** A poll interval that is not a positive integer rejects the whole configuration. */
  lemma ParseConfigRejectsBadPollInterval(input: ConfigInput, interval: real)
    requires input.watcher.Some? && input.watcher.value.clipboardPollInterval == Some(interval)
    requires !IsInteger(interval) || interval <= 0.0
    ensures ParseConfig(input).None?
  {
  }

  /** A `maxFileChanges` below 1 rejects the whole configuration. */
  lemma ParseConfigRejectsBadMaxFileChanges(input: ConfigInput, n: real)
    requires input.patch.Some? && input.patch.value.maxFileChanges == Some(n)
    requires n < 1.0
    ensures ParseConfig(input).None?
  {
  }
}
