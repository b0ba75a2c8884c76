/** Layered policy: how the layers merge, what one tool call is told, and when the project layer only narrows. */
module Policy {
  import opened Option
  import Json
  import ResolvePath

  datatype Preset = ReadOnly | Standard | Yolo

  /** From the strictest preset to the most permissive. */
  function Rank(p: Preset): nat {
    match p
    case ReadOnly => 0
    case Standard => 1
    case Yolo => 2
  }

  datatype Decision = Allow | Ask | Deny

  /** From the most permissive decision to the strictest. */
  function Severity(d: Decision): nat {
    match d
    case Allow => 0
    case Ask => 1
    case Deny => 2
  }

  datatype Source = FromPreset | FromGlobalConfig | FromProject | FromCli | FromSession

  datatype ToolPolicy = ToolPolicy(
    mode: Option<Decision>,
    paths: Option<seq<string>>,
    forbidden: Option<seq<string>>,
    binaries: Option<seq<string>>,
    forbiddenBinaries: Option<seq<string>>,
    network: Option<bool>)

  datatype Policy = Policy(
    preset: Preset,
    presetExplicit: bool,
    tools: map<string, ToolPolicy>,
    historyProtected: bool,
    readDeny: seq<string>)

  datatype SessionDeny = SessionDeny(tool: string, pathPattern: Option<string>)

  datatype Rule =
    | SessionRule | NetworkRule | ForbiddenPath | ForbiddenBinary | UnlistedBinary | UnlistedPath | Mode | PresetRule
  datatype PolicyDecision = PolicyDecision(outcome: Decision, rule: Rule, source: Source)

  datatype Engine = Engine(effective: Policy, sources: map<string, Source>)

  /** The glob matcher, and the binaries a command line reveals; nothing is asked of either. */
  datatype World = World(globMatches: (string, string, string) -> bool, binaries: string -> seq<string>)

  // ----- Decisions -----

  const READ_ONLY_TOOLS: set<string> := {
    "read_file", "list_files", "grep", "search_files", "file_info", "git_status", "git_diff",
    "lsp_diagnostics", "lsp_definition", "lsp_references", "lsp_hover", "check"}

  function PresetDecision(preset: Preset, tool: string): Decision {
    match preset
    case Yolo => Allow
    case _ =>
      if tool in READ_ONLY_TOOLS then Allow
      else if preset == Standard then Ask
      else Deny
  }

  const PATH_KEYS: seq<string> := [
    "path", "file", "file_path", "filename", "target", "destination", "to", "directory", "dir", "output"]

  function FirstString(args: Json.Json, keys: seq<string>): Option<string> {
    if keys == [] then None
    else if Json.StringAt(args, keys[0]).Some? then Json.StringAt(args, keys[0])
    else FirstString(args, keys[1..])
  }

  function ExtractPathArg(args: Json.Json): Option<string> {
    FirstString(args, PATH_KEYS)
  }

  function ResolvedPath(args: Json.Json, workingDir: string): Option<string> {
    var p := ExtractPathArg(args);
    if p.None? then None else Some(ResolvePath.Resolved(workingDir, p.value))
  }

  function SourceFor(e: Engine, tool: string): Source {
    if tool in e.sources then e.sources[tool] else FromPreset
  }

  predicate DeniedBySession(w: World, tool: string, path: Option<string>, workingDir: string,
      denies: set<SessionDeny>) {
    exists d :: d in denies && d.tool == tool &&
      (d.pathPattern.None? || (path.Some? && w.globMatches(d.pathPattern.value, path.value, workingDir)))
  }

  predicate AnyMatches(w: World, globs: seq<string>, path: string, workingDir: string) {
    exists i :: 0 <= i < |globs| && w.globMatches(globs[i], path, workingDir)
  }

  function Decide(w: World, e: Engine, tool: string, args: Json.Json, workingDir: string,
      denies: set<SessionDeny>): PolicyDecision {
    var path := ResolvedPath(args, workingDir);
    if DeniedBySession(w, tool, path, workingDir, denies) then PolicyDecision(Deny, SessionRule, FromSession)
    else if tool in e.effective.tools then
      var tp := e.effective.tools[tool];
      var command := Json.StringAt(args, "command");
      var candidates := if command.Some? then w.binaries(command.value) else [];
      if tp.network == Some(false) then PolicyDecision(Deny, NetworkRule, SourceFor(e, tool))
      else if tp.forbidden.Some? && path.Some? && AnyMatches(w, tp.forbidden.value, path.value, workingDir) then
        PolicyDecision(Deny, ForbiddenPath, SourceFor(e, tool))
      else if tool == "execute_command" && command.Some? && tp.forbiddenBinaries.Some?
              && (exists c :: c in candidates && c in tp.forbiddenBinaries.value) then
        PolicyDecision(Deny, ForbiddenBinary, SourceFor(e, tool))
      else if tool == "execute_command" && command.Some? && tp.binaries.Some?
              && (exists c :: c in candidates && c !in tp.binaries.value) then
        PolicyDecision(Deny, UnlistedBinary, SourceFor(e, tool))
      else if tp.paths.Some? && path.Some? && !AnyMatches(w, tp.paths.value, path.value, workingDir) then
        PolicyDecision(Deny, UnlistedPath, SourceFor(e, tool))
      else if tp.mode.Some? then PolicyDecision(tp.mode.value, Mode, SourceFor(e, tool))
      else PolicyDecision(PresetDecision(e.effective.preset, tool), PresetRule, FromPreset)
    else PolicyDecision(PresetDecision(e.effective.preset, tool), PresetRule, FromPreset)
  }

  // ----- What a tool's entry says -----

  predicate Lists(list: Option<seq<string>>, x: string) { list.Some? && x in list.value }

  /** The binaries a call would start, as far as the entries look at them. */
  function Starts(w: World, tool: string, args: Json.Json): seq<string> {
    if tool != "execute_command" || Json.StringAt(args, "command").None? then []
    else w.binaries(Json.StringAt(args, "command").value)
  }

  /** The entry cuts the call off, for any one of five reasons. */
  ghost predicate CutOff(w: World, tp: ToolPolicy, tool: string, args: Json.Json, workingDir: string) {
    var path := ResolvedPath(args, workingDir);
    || tp.network == Some(false)
    || (path.Some? && exists g :: Lists(tp.forbidden, g) && w.globMatches(g, path.value, workingDir))
    || (exists c :: c in Starts(w, tool, args) && Lists(tp.forbiddenBinaries, c))
    || (tp.binaries.Some? && exists c :: c in Starts(w, tool, args) && !Lists(tp.binaries, c))
    || (tp.paths.Some? && path.Some? && forall g :: Lists(tp.paths, g) ==> !w.globMatches(g, path.value, workingDir))
  }

  function ModeOf(tp: ToolPolicy, preset: Preset, tool: string): Decision {
    if tp.mode.Some? then tp.mode.value else PresetDecision(preset, tool)
  }

  lemma MatchesListed(w: World, globs: seq<string>, path: string, workingDir: string)
    ensures AnyMatches(w, globs, path, workingDir) <==>
            exists g :: Lists(Some(globs), g) && w.globMatches(g, path, workingDir)
  {
    if AnyMatches(w, globs, path, workingDir) {
      var i :| 0 <= i < |globs| && w.globMatches(globs[i], path, workingDir);
      assert Lists(Some(globs), globs[i]);
    }
  }

  lemma BinariesListed(candidates: seq<string>, list: seq<string>)
    ensures (exists c :: c in candidates && c in list) <==> exists c :: c in candidates && Lists(Some(list), c)
    ensures (exists c :: c in candidates && c !in list) <==> exists c :: c in candidates && !Lists(Some(list), c)
  {
    assert forall c :: Lists(Some(list), c) <==> c in list;
  }

  /** The five reasons as the branches look for them. */
  lemma CutOffBranches(w: World, tp: ToolPolicy, tool: string, args: Json.Json, workingDir: string)
    ensures var path, command := ResolvedPath(args, workingDir), Json.StringAt(args, "command");
            var candidates := if command.Some? then w.binaries(command.value) else [];
            CutOff(w, tp, tool, args, workingDir) <==>
            || tp.network == Some(false)
            || (tp.forbidden.Some? && path.Some? && AnyMatches(w, tp.forbidden.value, path.value, workingDir))
            || (tool == "execute_command" && command.Some? && tp.forbiddenBinaries.Some?
                && exists c :: c in candidates && c in tp.forbiddenBinaries.value)
            || (tool == "execute_command" && command.Some? && tp.binaries.Some?
                && exists c :: c in candidates && c !in tp.binaries.value)
            || (tp.paths.Some? && path.Some? && !AnyMatches(w, tp.paths.value, path.value, workingDir))
  {
    hide ResolvedPath, AnyMatches, Json.StringAt;
    var path := ResolvedPath(args, workingDir);
    if tp.forbidden.Some? && path.Some? {
      MatchesListed(w, tp.forbidden.value, path.value, workingDir);
    }
    if tp.paths.Some? && path.Some? {
      MatchesListed(w, tp.paths.value, path.value, workingDir);
    }
    if tp.forbiddenBinaries.Some? {
      BinariesListed(Starts(w, tool, args), tp.forbiddenBinaries.value);
    }
    if tp.binaries.Some? {
      BinariesListed(Starts(w, tool, args), tp.binaries.value);
    }
  }

  /** In whatever order the reasons are looked at: a session deny or a cut-off is a deny, anything else is left to
      the mode. */
  lemma DecideMeans(w: World, e: Engine, tool: string, args: Json.Json, workingDir: string, denies: set<SessionDeny>)
    ensures var outcome := Decide(w, e, tool, args, workingDir, denies).outcome;
            var tools := e.effective.tools;
            if DeniedBySession(w, tool, ResolvedPath(args, workingDir), workingDir, denies)
               || (tool in tools && CutOff(w, tools[tool], tool, args, workingDir)) then outcome == Deny
            else outcome == if tool in tools then ModeOf(tools[tool], e.effective.preset, tool)
                            else PresetDecision(e.effective.preset, tool)
  {
    hide DeniedBySession, ResolvedPath, PresetDecision, AnyMatches, Json.StringAt, CutOff;
    if tool in e.effective.tools {
      CutOffBranches(w, e.effective.tools[tool], tool, args, workingDir);
    }
  }

  /** Longer deny lists, shorter allow lists, a stricter mode. */
  ghost predicate Tighter(a: ToolPolicy, b: ToolPolicy, preset: Preset, tool: string) {
    && (b.network == Some(false) ==> a.network == Some(false))
    && (forall x :: Lists(b.forbidden, x) ==> Lists(a.forbidden, x))
    && (forall x :: Lists(b.forbiddenBinaries, x) ==> Lists(a.forbiddenBinaries, x))
    && (b.binaries.Some? ==> a.binaries.Some? && forall x :: Lists(a.binaries, x) ==> Lists(b.binaries, x))
    && (b.paths.Some? ==> a.paths.Some? && forall x :: Lists(a.paths, x) ==> Lists(b.paths, x))
    && Severity(ModeOf(a, preset, tool)) >= Severity(ModeOf(b, preset, tool))
  }

  /** Tightening a tool's entry never softens an answer, about that tool or another. */
  lemma TighterEntryNarrows(w: World, e: Engine, entryTool: string, a: ToolPolicy, b: ToolPolicy,
                            tool: string, args: Json.Json, workingDir: string, denies: set<SessionDeny>)
    requires Tighter(a, b, e.effective.preset, entryTool)
    ensures var with := (tp: ToolPolicy) => e.(effective := e.effective.(tools := e.effective.tools[entryTool := tp]));
            Severity(Decide(w, with(a), tool, args, workingDir, denies).outcome) >=
            Severity(Decide(w, with(b), tool, args, workingDir, denies).outcome)
  {
    hide Decide, DeniedBySession, ResolvedPath, PresetDecision, Lists, Starts;
    DecideMeans(w, e.(effective := e.effective.(tools := e.effective.tools[entryTool := a])), tool, args, workingDir,
      denies);
    DecideMeans(w, e.(effective := e.effective.(tools := e.effective.tools[entryTool := b])), tool, args, workingDir,
      denies);
    if tool == entryTool && CutOff(w, b, tool, args, workingDir) {
      assert CutOff(w, a, tool, args, workingDir);
    }
  }

  // ----- Layering -----

  /** The preset named in the global configuration; an unknown name falls back to the default. */
  function GlobalPreset(name: Option<string>): Preset {
    match name
    case None => Standard
    case Some(s) =>
      if s == "read-only" || s == "readonly" then ReadOnly
      else if s == "standard" || s == "default" then Standard
      else if s == "yolo" || s == "unrestricted" then Yolo
      else Standard
  }

  /** The preset after the project had its say: it may only choose a stricter one. */
  function LayeredPreset(name: Option<string>, project: Option<Policy>): Preset {
    if project.Some? && project.value.presetExplicit && Rank(project.value.preset) <= Rank(GlobalPreset(name))
    then project.value.preset else GlobalPreset(name)
  }

  /** A project entry without a mode that would widen what the preset decides. */
  function Accepted(preset: Preset, tool: string, tp: ToolPolicy): ToolPolicy {
    if tp.mode.Some? && Severity(tp.mode.value) < Severity(PresetDecision(preset, tool)) then tp.(mode := None) else tp
  }

  /** Everything a file system supplies is a parameter: the configured name, the parsed project policy if there is
      one, and the command line's preset. */
  method Load(global: Option<string>, defaults: Policy, project: Option<Policy>, cli: Option<Preset>)
      returns (engine: Engine)
    requires defaults.tools == map[]
    ensures engine == Loaded(global, defaults, project, cli)
  {
    hide PresetDecision, Accepted, GlobalPreset;
    var effective := defaults;
    var sources: map<string, Source> := map[];
    effective := effective.(preset := GlobalPreset(global));
    sources := sources["preset" := FromGlobalConfig];
    if project.Some? {
      var p := project.value;
      if p.presetExplicit {
        if Rank(p.preset) > Rank(effective.preset) {
        } else {
          effective := effective.(preset := p.preset);
          sources := sources["preset" := FromProject];
        }
      }
      var tools;
      tools, sources := MergeTools(effective.tools, sources, effective.preset, p);
      effective := effective.(tools := tools);
      effective := effective.(historyProtected := p.historyProtected);
      effective := effective.(readDeny := effective.readDeny + p.readDeny);
    }
    if cli.Some? {
      effective := effective.(preset := cli.value);
      sources := sources["preset" := FromCli];
    }
    engine := Engine(effective, sources);
  }

  /** The loop over the project's tool entries. */
  method MergeTools(before: map<string, ToolPolicy>, start: map<string, Source>, preset: Preset, p: Policy)
    returns (tools: map<string, ToolPolicy>, sources: map<string, Source>)
    requires before == map[]
    ensures tools == map t | t in p.tools :: Accepted(preset, t, p.tools[t])
    ensures sources == start + map t | t in p.tools :: FromProject
  {
    hide Merged, PresetDecision, Accepted;
    tools, sources := before, start;
    var todo := p.tools.Keys;
    MergedNone(preset, p, start);
    assert p.tools.Keys - todo == {};
    while todo != {}
      invariant todo <= p.tools.Keys
      invariant Merged(tools, sources, preset, p, p.tools.Keys - todo, start)
      decreases |todo|
    {
      var tool :| tool in todo;
      var accepted := p.tools[tool];
      var current :=
        if tool in tools && tools[tool].mode.Some? then tools[tool].mode.value else PresetDecision(preset, tool);
      if accepted.mode.Some? && Severity(accepted.mode.value) < Severity(current) {
        accepted := accepted.(mode := None);
      }
      MergeOne(tools, sources, preset, p, p.tools.Keys - todo, start, tool, current, accepted);
      tools := tools[tool := accepted];
      sources := sources[tool := FromProject];
      assert p.tools.Keys - (todo - {tool}) == p.tools.Keys - todo + {tool};
      todo := todo - {tool};
    }
    assert p.tools.Keys - todo == p.tools.Keys;
    MergedAll(tools, sources, preset, p, start);
  }

  /** What the loop has done for the tools in `done`. */
  ghost predicate Merged(tools: map<string, ToolPolicy>, sources: map<string, Source>, preset: Preset, p: Policy,
                         done: set<string>, before: map<string, Source>) {
    && done <= p.tools.Keys
    && (forall t :: t in tools <==> t in done)
    && (forall t :: t in done ==> tools[t] == Accepted(preset, t, p.tools[t]))
    && (forall t :: t in sources <==> t in before || t in done)
    && (forall t :: t in sources ==> sources[t] == if t in done then FromProject else before[t])
  }

  lemma MergeOne(tools: map<string, ToolPolicy>, sources: map<string, Source>, preset: Preset, p: Policy,
      done: set<string>,
                 before: map<string, Source>, tool: string, current: Decision, accepted: ToolPolicy)
    requires Merged(tools, sources, preset, p, done, before) && tool in p.tools && tool !in done
    requires tool !in tools ==> current == PresetDecision(preset, tool)
    requires var tp := p.tools[tool];
             accepted == if tp.mode.Some? && Severity(tp.mode.value) < Severity(current) then tp.(mode := None) else tp
    ensures Merged(tools[tool := accepted], sources[tool := FromProject], preset, p, done + {tool}, before)
  {
    hide PresetDecision;
  }

  lemma MergedAll(tools: map<string, ToolPolicy>, sources: map<string, Source>, preset: Preset, p: Policy,
      before: map<string, Source>)
    requires Merged(tools, sources, preset, p, p.tools.Keys, before)
    ensures tools == map t | t in p.tools :: Accepted(preset, t, p.tools[t])
    ensures sources == before + map t | t in p.tools :: FromProject
  {
    hide Accepted;
  }

  lemma MergedNone(preset: Preset, p: Policy, before: map<string, Source>)
    ensures Merged(map[], before, preset, p, {}, before)
  {}

  function ProjectSources(global: Option<string>, project: Option<Policy>): map<string, Source> {
    var base := map["preset" := FromGlobalConfig];
    if project.None? then base else
    var p := project.value;
    (if p.presetExplicit && Rank(p.preset) <= Rank(GlobalPreset(global)) then base["preset" := FromProject] else base)
      + map t | t in p.tools :: FromProject
  }

  function Loaded(global: Option<string>, defaults: Policy, project: Option<Policy>, cli: Option<Preset>): Engine {
    var preset := LayeredPreset(global, project);
    var sources := ProjectSources(global, project);
    var merged := match project
      case None => defaults.(preset := preset)
      case Some(p) =>
        Policy(preset, defaults.presetExplicit, map t | t in p.tools :: Accepted(preset, t, p.tools[t]),
               p.historyProtected, defaults.readDeny + p.readDeny);
    match cli
    case None => Engine(merged, sources)
    case Some(c) => Engine(merged.(preset := c), sources["preset" := FromCli])
  }

  // ----- The project layer only narrows -----

  predicate AtLeast(a: Decision, b: Decision) { Severity(a) >= Severity(b) }

  /** The preset in force, the command line's if there is one. */
  function FinalPreset(global: Option<string>, project: Option<Policy>, cli: Option<Preset>): Preset {
    if cli.Some? then cli.value else LayeredPreset(global, project)
  }

  /** With the project layer, every call gets an answer at least as strict as without it. */
  ghost predicate Narrows(global: Option<string>, defaults: Policy, project: Policy, cli: Option<Preset>) {
    forall w: World, tool, args, workingDir, denies ::
      AtLeast(Decide(w, Loaded(global, defaults, Some(project), cli), tool, args, workingDir, denies).outcome,
              Decide(w, Loaded(global, defaults, None, cli), tool, args, workingDir, denies).outcome)
  }

  /** No accepted project mode is below what the command line's preset decides, except on a tool cut off anyway. */
  ghost predicate NoModeBelow(global: Option<string>, project: Policy, cli: Preset) {
    forall t :: t in project.tools && project.tools[t].network != Some(false) ==>
      var tp := Accepted(LayeredPreset(global, Some(project)), t, project.tools[t]);
      tp.mode.Some? ==> AtLeast(tp.mode.value, PresetDecision(cli, t))
  }

  lemma PresetOrder(a: Preset, b: Preset, tool: string)
    requires Rank(a) <= Rank(b)
    ensures AtLeast(PresetDecision(a, tool), PresetDecision(b, tool))
  {
    hide READ_ONLY_TOOLS;
  }

  lemma WithoutProject(w: World, global: Option<string>, defaults: Policy, cli: Option<Preset>, tool: string,
      args: Json.Json,
                       workingDir: string, denies: set<SessionDeny>)
    requires defaults.tools == map[]
    ensures Decide(w, Loaded(global, defaults, None, cli), tool, args, workingDir, denies).outcome ==
            if DeniedBySession(w, tool, ResolvedPath(args, workingDir), workingDir, denies) then Deny
            else PresetDecision(if cli.Some? then cli.value else GlobalPreset(global), tool)
  {
    hide DeniedBySession, ResolvedPath, PresetDecision;
  }

  lemma WithProject(w: World, global: Option<string>, defaults: Policy, project: Policy, cli: Option<Preset>,
      tool: string, args: Json.Json,
                    workingDir: string, denies: set<SessionDeny>)
    ensures var outcome :=
            Decide(w, Loaded(global, defaults, Some(project), cli), tool, args, workingDir, denies).outcome;
            var preset := PresetDecision(FinalPreset(global, Some(project), cli), tool);
            var denied := DeniedBySession(w, tool, ResolvedPath(args, workingDir), workingDir, denies);
            && (denied ==> outcome == Deny)
            && (!denied && tool !in project.tools ==> outcome == preset)
            && (!denied && tool in project.tools ==>
                  var tp := Accepted(LayeredPreset(global, Some(project)), tool, project.tools[tool]);
                  outcome == Deny ||
                  (project.tools[tool].network != Some(false) &&
                    outcome == if tp.mode.Some? then tp.mode.value else preset))
  {
    hide DeniedBySession, ResolvedPath, PresetDecision, AnyMatches, Json.StringAt;
  }

  /** A call without arguments meets no path or command rule. */
  lemma BareCall(w: World, global: Option<string>, defaults: Policy, project: Policy, cli: Option<Preset>, tool: string)
    requires tool in project.tools && project.tools[tool].network != Some(false)
    ensures var tp := Accepted(LayeredPreset(global, Some(project)), tool, project.tools[tool]);
            Decide(w, Loaded(global, defaults, Some(project), cli), tool, Json.Null, "/", {}).outcome ==
            if tp.mode.Some? then tp.mode.value else PresetDecision(FinalPreset(global, Some(project), cli), tool)
  {
    hide PresetDecision, READ_ONLY_TOOLS, PATH_KEYS, FirstString;
    NoString(PATH_KEYS);
  }

  lemma {:induction false} NoString(keys: seq<string>)
    ensures FirstString(Json.Null, keys) == None
  {
    if keys != [] {
      NoString(keys[1..]);
    }
  }

  /** Without a command-line preset the project layer always narrows; with one, exactly when no accepted mode is
      below what that preset decides. */
  lemma NarrowsIff(global: Option<string>, defaults: Policy, project: Policy, cli: Option<Preset>)
    requires defaults.tools == map[]
    ensures Narrows(global, defaults, project, cli) <==> cli.None? || NoModeBelow(global, project, cli.value)
  {
    hide Decide, Loaded, PresetDecision, LayeredPreset, DeniedBySession, ResolvedPath, Accepted, GlobalPreset;
    if cli.None? || NoModeBelow(global, project, cli.value) {
      forall w: World, tool, args, workingDir, denies
        ensures AtLeast(Decide(w, Loaded(global, defaults, Some(project), cli), tool, args, workingDir, denies).outcome,
                        Decide(w, Loaded(global, defaults, None, cli), tool, args, workingDir, denies).outcome)
      {
        WithoutProject(w, global, defaults, cli, tool, args, workingDir, denies);
        WithProject(w, global, defaults, project, cli, tool, args, workingDir, denies);
        LayeredNarrows(global, project, tool);
      }
    } else {
      var t :| t in project.tools && project.tools[t].network != Some(false)
        && Accepted(LayeredPreset(global, Some(project)), t, project.tools[t]).mode.Some?
        && !AtLeast(Accepted(LayeredPreset(global, Some(project)), t, project.tools[t]).mode.value,
          PresetDecision(cli.value, t));
      var w := World((_, _, _) => false, _ => []);
      BareCall(w, global, defaults, project, cli, t);
      WithoutProject(w, global, defaults, cli, t, Json.Null, "/", {});
      NoDenies(w, t);
      assert !AtLeast(Decide(w, Loaded(global, defaults, Some(project), cli), t, Json.Null, "/", {}).outcome,
                      Decide(w, Loaded(global, defaults, None, cli), t, Json.Null, "/", {}).outcome);
    }
  }

  lemma NoDenies(w: World, tool: string)
    ensures !DeniedBySession(w, tool, ResolvedPath(Json.Null, "/"), "/", {})
  {}

  lemma LayeredNarrows(global: Option<string>, project: Policy, tool: string)
    ensures AtLeast(PresetDecision(LayeredPreset(global, Some(project)), tool),
            PresetDecision(GlobalPreset(global), tool))
    ensures tool in project.tools ==>
              var tp := Accepted(LayeredPreset(global, Some(project)), tool, project.tools[tool]);
              tp.mode.Some? ==> AtLeast(tp.mode.value, PresetDecision(LayeredPreset(global, Some(project)), tool))
  {
    hide PresetDecision;
    PresetOrder(LayeredPreset(global, Some(project)), GlobalPreset(global), tool);
  }

  /** In particular a command-line preset no stricter than the layered one leaves the narrowing intact. */
  lemma PermissiveCliNarrows(global: Option<string>, defaults: Policy, project: Policy, cli: Preset)
    requires defaults.tools == map[]
    requires Rank(LayeredPreset(global, Some(project))) <= Rank(cli)
    ensures Narrows(global, defaults, project, Some(cli))
  {
    hide Narrows, PresetDecision, Accepted, LayeredPreset;
    forall t | t in project.tools
      ensures var tp := Accepted(LayeredPreset(global, Some(project)), t, project.tools[t]);
              tp.mode.Some? ==> AtLeast(tp.mode.value, PresetDecision(cli, t))
    {
      LayeredNarrows(global, project, t);
      PresetOrder(LayeredPreset(global, Some(project)), cli, t);
    }
    NarrowsIff(global, defaults, project, Some(cli));
  }

  /** A stricter command-line preset can be undercut: read-only asked for, and a write still merely asks. */
  lemma StrictCliUndercut(defaults: Policy)
    requires defaults.tools == map[]
    ensures var asks := ToolPolicy(Some(Ask), None, None, None, None, None);
            !Narrows(None, defaults, Policy(Standard, false, map["write_file" := asks], true, []), Some(ReadOnly))
  {
    hide Narrows;
    var asks := ToolPolicy(Some(Ask), None, None, None, None, None);
    var project := Policy(Standard, false, map["write_file" := asks], true, []);
    assert "write_file" in project.tools;
    NotReadOnly();
    NarrowsIff(None, defaults, project, Some(ReadOnly));
  }

  lemma NotReadOnly()
    ensures "write_file" !in READ_ONLY_TOOLS
  {
    assert "write_file"[0] == 'w';
  }

  /** One more session deny never softens an answer. */
  lemma MoreDeniesNarrow(w: World, e: Engine, tool: string, args: Json.Json, workingDir: string,
      denies: set<SessionDeny>, more: set<SessionDeny>)
    requires denies <= more
    ensures AtLeast(Decide(w, e, tool, args, workingDir, more).outcome,
            Decide(w, e, tool, args, workingDir, denies).outcome)
  {
    hide ResolvedPath, PresetDecision, AnyMatches, Json.StringAt;
  }

  /** The project layer keeps the history protected exactly when it protects it itself or there was nothing to keep. */
  lemma HistoryNarrowsIff(global: Option<string>, defaults: Policy, project: Policy, cli: Option<Preset>)
    ensures var without := Loaded(global, defaults, None, cli).effective.historyProtected;
            var with := Loaded(global, defaults, Some(project), cli).effective.historyProtected;
            (without ==> with) <==> (defaults.historyProtected ==> project.historyProtected)
  {}

  /** The read-protection list only grows; the history flag is the project's alone, so a project can drop it. */
  lemma ReadDenyGrows(global: Option<string>, defaults: Policy, project: Policy, cli: Option<Preset>)
    ensures defaults.readDeny <= Loaded(global, defaults, Some(project), cli).effective.readDeny
    ensures Loaded(global, defaults, Some(project), cli).effective.historyProtected == project.historyProtected
  {}

  // ----- The tables, written out -----

  /** No session deny of the tool matches the call. */
  ghost predicate NoDenyMatches(w: World, tool: string, args: Json.Json, workingDir: string, denies: set<SessionDeny>) {
    forall d :: d in denies && d.tool == tool ==>
      && d.pathPattern.Some?
      && forall p :: ExtractPathArg(args) == Some(p) ==>
           !w.globMatches(d.pathPattern.value, ResolvePath.Resolved(workingDir, p), workingDir)
  }

  lemma NoDenyIff(w: World, tool: string, args: Json.Json, workingDir: string, denies: set<SessionDeny>)
    ensures DeniedBySession(w, tool, ResolvedPath(args, workingDir), workingDir, denies) <==>
            !NoDenyMatches(w, tool, args, workingDir, denies)
  {
    hide ExtractPathArg, ResolvePath.Resolved;
  }

  /** The path matches a forbidden pattern, or none of those that are allowed. */
  ghost predicate PathCutOff(w: World, tp: ToolPolicy, path: string, workingDir: string) {
    || (tp.forbidden.Some? && exists g :: g in tp.forbidden.value && w.globMatches(g, path, workingDir))
    || (tp.paths.Some? && forall g :: g in tp.paths.value ==> !w.globMatches(g, path, workingDir))
  }

  predicate BinaryCutOff(tp: ToolPolicy, binary: string) {
    || (tp.forbiddenBinaries.Some? && binary in tp.forbiddenBinaries.value)
    || (tp.binaries.Some? && binary !in tp.binaries.value)
  }

  lemma PathCutOffIs(w: World, tp: ToolPolicy, path: string, workingDir: string)
    ensures PathCutOff(w, tp, path, workingDir) <==>
            || (exists g :: Lists(tp.forbidden, g) && w.globMatches(g, path, workingDir))
            || (tp.paths.Some? && forall g :: Lists(tp.paths, g) ==> !w.globMatches(g, path, workingDir))
  {
    if tp.forbidden.Some? {
      assert forall g :: Lists(tp.forbidden, g) <==> g in tp.forbidden.value;
    }
    if tp.paths.Some? {
      assert forall g :: Lists(tp.paths, g) <==> g in tp.paths.value;
    }
  }

  /** What in an entry cuts a call off: the network switch, the path, or one of the binaries it would start. */
  lemma CutOffIff(w: World, tp: ToolPolicy, tool: string, args: Json.Json, workingDir: string)
    ensures CutOff(w, tp, tool, args, workingDir) <==>
            || tp.network == Some(false)
            || (exists p :: ExtractPathArg(args) == Some(p) &&
                            PathCutOff(w, tp, ResolvePath.Resolved(workingDir, p), workingDir))
            || (tool == "execute_command" &&
                exists command, c :: Json.StringAt(args, "command") == Some(command) && c in w.binaries(command) &&
                                     BinaryCutOff(tp, c))
  {
    hide ExtractPathArg, ResolvePath.Resolved, Json.StringAt;
    if ExtractPathArg(args).Some? {
      PathCutOffIs(w, tp, ResolvePath.Resolved(workingDir, ExtractPathArg(args).value), workingDir);
    }
    assert forall c :: BinaryCutOff(tp, c) <==>
      Lists(tp.forbiddenBinaries, c) || (tp.binaries.Some? && !Lists(tp.binaries, c));
    var starts := Starts(w, tool, args);
    if c :| c in starts && BinaryCutOff(tp, c) {
      assert Json.StringAt(args, "command").Some? && c in w.binaries(Json.StringAt(args, "command").value);
    }
  }

  /** The twelve tools that only read. */
  predicate OnlyReads(tool: string) {
    || tool == "read_file" || tool == "list_files" || tool == "grep" || tool == "search_files"
    || tool == "file_info" || tool == "git_status" || tool == "git_diff" || tool == "lsp_diagnostics"
    || tool == "lsp_definition" || tool == "lsp_references" || tool == "lsp_hover" || tool == "check"
  }

  /** What a call is told about a tool without an entry: reads go ahead, the rest goes ahead under Yolo, asks under
      Standard and is denied under ReadOnly. */
  lemma DecideByPreset(w: World, e: Engine, tool: string, args: Json.Json, workingDir: string, denies: set<SessionDeny>)
    requires tool !in e.effective.tools && NoDenyMatches(w, tool, args, workingDir, denies)
    ensures var outcome := Decide(w, e, tool, args, workingDir, denies).outcome;
            && (outcome == Allow <==> e.effective.preset == Yolo || OnlyReads(tool))
            && (outcome == Ask <==> e.effective.preset == Standard && !OnlyReads(tool))
            && (outcome == Deny <==> e.effective.preset == ReadOnly && !OnlyReads(tool))
  {
    hide Decide, DeniedBySession, NoDenyMatches, ResolvedPath, CutOff, OnlyReads;
    DecideMeans(w, e, tool, args, workingDir, denies);
    NoDenyIff(w, tool, args, workingDir, denies);
    ReadsAre(tool);
  }

  lemma ReadsAre(tool: string)
    ensures tool in READ_ONLY_TOOLS <==> OnlyReads(tool)
  {}

  /** With an entry whose restrictions do not bite, its mode decides, and without a mode the same table. */
  lemma DecideByEntry(w: World, e: Engine, tool: string, args: Json.Json, workingDir: string, denies: set<SessionDeny>)
    requires tool in e.effective.tools && NoDenyMatches(w, tool, args, workingDir, denies)
    requires !CutOff(w, e.effective.tools[tool], tool, args, workingDir)
    ensures var outcome := Decide(w, e, tool, args, workingDir, denies).outcome;
            var tp := e.effective.tools[tool];
            && (tp.mode.Some? ==> outcome == tp.mode.value)
            && (tp.mode.None? ==>
                  && (outcome == Allow <==> e.effective.preset == Yolo || OnlyReads(tool))
                  && (outcome == Ask <==> e.effective.preset == Standard && !OnlyReads(tool))
                  && (outcome == Deny <==> e.effective.preset == ReadOnly && !OnlyReads(tool)))
  {
    hide Decide, DeniedBySession, NoDenyMatches, ResolvedPath, CutOff, OnlyReads;
    DecideMeans(w, e, tool, args, workingDir, denies);
    NoDenyIff(w, tool, args, workingDir, denies);
    ReadsAre(tool);
  }

  /** Which rule and which layer an answer names. */
  lemma RuleMeans(w: World, e: Engine, tool: string, args: Json.Json, workingDir: string, denies: set<SessionDeny>)
    ensures var d := Decide(w, e, tool, args, workingDir, denies);
            var tools := e.effective.tools;
            && (d.rule == SessionRule <==> !NoDenyMatches(w, tool, args, workingDir, denies))
            && (d.rule == SessionRule ==> d.source == FromSession)
            && (d.rule == PresetRule ==> d.source == FromPreset)
            && (d.rule == Mode ==> tool in tools && tools[tool].mode == Some(d.outcome))
            && (d.rule == NetworkRule <==>
                  NoDenyMatches(w, tool, args, workingDir, denies) && tool in tools &&
                  tools[tool].network == Some(false))
            && (d.rule != SessionRule && d.rule != PresetRule ==>
                  d.source == if tool in e.sources then e.sources[tool] else FromPreset)
            && (d.rule != PresetRule && d.rule != Mode ==> d.outcome == Deny)
  {
    hide DeniedBySession, NoDenyMatches, ResolvedPath, PresetDecision, AnyMatches, Json.StringAt;
    NoDenyIff(w, tool, args, workingDir, denies);
  }

  /** A shell command that starts a forbidden binary is denied, whatever else is configured. */
  lemma ForbiddenBinaryDenied(w: World, e: Engine, args: Json.Json, workingDir: string, denies: set<SessionDeny>,
      command: string, binary: string)
    requires Json.StringAt(args, "command") == Some(command) && binary in w.binaries(command)
    requires "execute_command" in e.effective.tools
    requires Lists(e.effective.tools["execute_command"].forbiddenBinaries, binary)
    ensures Decide(w, e, "execute_command", args, workingDir, denies).outcome == Deny
  {
    hide Decide, DeniedBySession, ResolvedPath, Json.StringAt, Lists;
    DecideMeans(w, e, "execute_command", args, workingDir, denies);
    assert binary in Starts(w, "execute_command", args);
  }

  /** The path of a call: the first of the ten keys, in this order, that holds a string. */
  lemma PathArgIs(args: Json.Json, k: nat)
    requires k < 10
    requires var keys := ["path", "file", "file_path", "filename", "target",
                         "destination", "to", "directory", "dir", "output"];
             && Json.StringAt(args, keys[k]).Some? && forall j :: 0 <= j < k ==> Json.StringAt(args, keys[j]).None?
    ensures var keys := ["path", "file", "file_path", "filename", "target",
                         "destination", "to", "directory", "dir", "output"];
            ExtractPathArg(args) == Json.StringAt(args, keys[k])
  {
    hide Json.StringAt;
    FirstStringAt(args, PATH_KEYS, k);
  }

  lemma NoPathArg(args: Json.Json)
    requires var keys := ["path", "file", "file_path", "filename", "target",
                         "destination", "to", "directory", "dir", "output"];
             forall key :: key in keys ==> Json.StringAt(args, key).None?
    ensures ExtractPathArg(args) == None
  {
    hide Json.StringAt;
    NoFirstString(args, PATH_KEYS);
  }

  lemma {:induction false} FirstStringAt(args: Json.Json, keys: seq<string>, k: nat)
    requires k < |keys| && Json.StringAt(args, keys[k]).Some?
    requires forall j :: 0 <= j < k ==> Json.StringAt(args, keys[j]).None?
    ensures FirstString(args, keys) == Json.StringAt(args, keys[k])
    decreases k
  {
    hide Json.StringAt;
    if k > 0 {
      FirstStringAt(args, keys[1..], k - 1);
    }
  }

  lemma {:induction false} NoFirstString(args: Json.Json, keys: seq<string>)
    requires forall key :: key in keys ==> Json.StringAt(args, key).None?
    ensures FirstString(args, keys) == None
  {
    hide Json.StringAt;
    if keys != [] {
      NoFirstString(args, keys[1..]);
    }
  }

  /** The preset that is left when the layers have been merged, without one from the command line. */
  lemma LayeredIs(global: Option<string>, defaults: Policy, project: Option<Policy>)
    ensures var given := if global == Some("read-only") || global == Some("readonly") then ReadOnly
                         else if global == Some("yolo") || global == Some("unrestricted") then Yolo
                         else Standard;
            Loaded(global, defaults, project, None).effective.preset ==
            if project.Some? && project.value.presetExplicit &&
               (project.value.preset == ReadOnly || given == Yolo || project.value.preset == given)
            then project.value.preset else given
    ensures forall cli :: Loaded(global, defaults, project, Some(cli)).effective.preset == cli
  {}

  /** Which layer set what. */
  lemma SourcesAre(global: Option<string>, defaults: Policy, project: Policy, cli: Option<Preset>, tool: string)
    requires tool in project.tools && tool != "preset"
    ensures var sources := Loaded(global, defaults, Some(project), cli).sources;
            tool in sources && sources[tool] == FromProject && "preset" in sources
    ensures cli.Some? ==> Loaded(global, defaults, Some(project), cli).sources["preset"] == FromCli
    ensures cli.None? && "preset" !in project.tools ==>
              Loaded(global, defaults, Some(project), cli).sources["preset"] ==
              if project.presetExplicit && Rank(project.preset) <= Rank(GlobalPreset(global)) then FromProject
              else FromGlobalConfig
  {
    hide GlobalPreset, Rank, LayeredPreset, Accepted;
  }

  /** A project's entry is taken over; only a mode that the preset's answer is stricter than is dropped. */
  lemma EntryIs(global: Option<string>, defaults: Policy, project: Policy, cli: Option<Preset>, tool: string)
    requires tool in project.tools
    ensures tool in Loaded(global, defaults, Some(project), cli).effective.tools
    ensures var tp, was := Loaded(global, defaults, Some(project), cli).effective.tools[tool], project.tools[tool];
            var answer := PresetDecision(LayeredPreset(global, Some(project)), tool);
            && tp.paths == was.paths && tp.forbidden == was.forbidden && tp.binaries == was.binaries
            && tp.forbiddenBinaries == was.forbiddenBinaries && tp.network == was.network
            && (was.mode.None? ==> tp.mode.None?)
            && (was.mode == Some(Deny) ==> tp.mode == Some(Deny))
            && (was.mode == Some(Ask) ==> tp.mode == if answer == Deny then None else Some(Ask))
            && (was.mode == Some(Allow) ==> tp.mode == if answer == Allow then Some(Allow) else None)
  {
    hide PresetDecision, LayeredPreset;
  }
}
