/** The command risk analyser (src/security/BlastRadius.cpp).
  *
  * Each command family is a function from its arguments to the findings it adds, in order; `Analysed` puts the whole
  * reading of a command together. The class `RiskReport` is the report being filled: it runs the source's loop over the
  * targets of rm, and appends the findings of every other family from its function.
  */
module BlastRadius {
  import opened ShellSplit

  datatype RiskLevel = None | Low | Medium | High | Critical {
    function Rank(): nat {
      match this case None => 0 case Low => 1 case Medium => 2 case High => 3 case Critical => 4
    }

    function Next(): RiskLevel {
      match this case None => Low case Low => Medium case Medium => High case High => Critical case Critical => Critical
    }
  }

  /** What a finding says; one constructor per message of the source. */
  datatype What =
    | NoTarget | DeletesRoot | DeletesRootTree | DeletesTree | Deletes | Wildcard | ForceAndRecursive
    | MovesOntoRoot | CopiesOntoRoot | MovesOver | CopiesOver | MovesRootAway
    | OwnsRoot | ModesRoot | OwnsTree | ModesTree | WorldWritable
    | InterruptsService(verb: string) | DisablesService | WholeMachine | ChangesService(verb: string)
    | ComposeDownVolumes | ComposeDown | PruneVolumes | Prune | RemovesContainers | RemovesVolumes
    | InterruptsContainers(verb: string)
    | HardReset | CleanIgnored | CleanDirs | Clean | ForcePush | LeasePush | DeletesRemoteBranch | DeletesBranch
    | DiscardsLocal
    | DeletesWidely | DeletesResources | DrainsNode | Scales | UndoesRollout
    | PurgesPackages | RemovesPackages
    | Formats | WritesDevice
    | DropsDatabase | DropsSchema | DropsTable | EmptiesTable | DeletesRows | UpdatesRows | DeletesAllRows
    | UpdatesAllRows
    | RunsAsRoot

  /** What the finding is about. A phrase that depends on nothing but the message is `Fixed`. */
  datatype Detail = Fixed | About(text: string)

  datatype Finding = Finding(what: What, detail: Detail, level: RiskLevel, uncertain: bool)

  // ---- text helpers ---------------------------------------------------------------------------------------------

  function LowerChar(c: char): char {
    if 'A' <= c <= 'Z' then (c as int + 32) as char else c
  }

  function Lower(s: string): string {
    seq(|s|, i requires 0 <= i < |s| => LowerChar(s[i]))
  }

  predicate IsAlpha(c: char) {
    'a' <= c <= 'z' || 'A' <= c <= 'Z'
  }

  predicate Contains(s: string, t: string) {
    t <= s || (s != "" && Contains(s[1..], t))
  }

  predicate HasShortFlag(args: seq<string>, f: char) {
    exists i :: 0 <= i < |args| && 2 <= |args[i]| && args[i][0] == '-' && args[i][1] != '-' && f in args[i][1..]
  }

  predicate HasLongFlag(args: seq<string>, f: string) {
    f in args
  }

  predicate IsFlag(a: string) {
    a != "" && a[0] == '-' && a != "-"
  }

  /** The arguments that are not flags; everything after the first "--" is one. */
  function Operands(args: seq<string>): seq<string> {
    if args == [] then []
    else if args[0] == "--" then args[1..]
    else if IsFlag(args[0]) then Operands(args[1..])
    else [args[0]] + Operands(args[1..])
  }

  predicate HasUnmodelledSyntax(token: string) {
    Contains(token, "$(") || Contains(token, "${") || '`' in token || '$' in token
  }

  function StripSlashes(p: string): string {
    if 1 < |p| && (p[|p| - 1] == '/' || p[|p| - 1] == '\\') then StripSlashes(p[..|p| - 1]) else p
  }

  function Ups(p: string): nat {
    if |p| < 2 then 0 else (if p[0] == '.' && p[1] == '.' then 1 else 0) + Ups(p[1..])
  }

  const SYSTEM_PATHS := ["/etc", "/usr", "/bin", "/sbin", "/lib", "/lib64", "/boot", "/dev", "/proc", "/sys", "/var",
                         "/opt", "/home", "/root", "/srv"]

  predicate IsRootLikePath(path: string) {
    path != "" &&
    var p := StripSlashes(path);
    || p in ["/", "~", "/*", ".", ".."]
    || (2 <= |p| <= 3 && IsAlpha(p[0]) && p[1] == ':')
    || Lower(p) in SYSTEM_PATHS
    || 4 <= Ups(p)
  }

  /** A trailing slash makes no difference to what a path is. */
  lemma TrailingSlash(path: string)
    requires path != ""
    ensures IsRootLikePath(path + "/") == IsRootLikePath(path)
    ensures IsRootLikePath(path + "\\") == IsRootLikePath(path)
  {}

  // ---- the families ---------------------------------------------------------------------------------------------

  function One(what: What, detail: Detail, level: RiskLevel): seq<Finding> {
    [Finding(what, detail, level, false)]
  }

  predicate RmRecursive(a: seq<string>) {
    HasShortFlag(a, 'r') || HasShortFlag(a, 'R') || HasLongFlag(a, "--recursive")
  }

  predicate RmForce(a: seq<string>) {
    HasShortFlag(a, 'f') || HasLongFlag(a, "--force")
  }

  function RmTarget(p: string, recursive: bool): seq<Finding> {
    var unsure := HasUnmodelledSyntax(p);
    (if IsRootLikePath(p) then
       [Finding(if recursive then DeletesRootTree else DeletesRoot, About(p), Critical, unsure)]
     else if recursive then [Finding(DeletesTree, About(p), High, unsure)]
     else [Finding(Deletes, About(p), Medium, unsure)])
    + (if '*' in p || '?' in p then [Finding(Wildcard, About(p), High, true)] else [])
  }

  function RmTargets(ops: seq<string>, recursive: bool): seq<Finding> {
    if ops == [] then [] else RmTargets(ops[..|ops| - 1], recursive) + RmTarget(ops[|ops| - 1], recursive)
  }

  function Rm(a: seq<string>): seq<Finding> {
    var ops := Operands(a);
    if ops == [] then One(NoTarget, Fixed, Low)
    else
      RmTargets(ops, RmRecursive(a))
      + (if RmForce(a) && RmRecursive(a) then One(ForceAndRecursive, Fixed, High) else [])
  }

  function MovedAway(ops: seq<string>): seq<Finding> {
    if ops == [] then []
    else
      var p := ops[|ops| - 1];
      MovedAway(ops[..|ops| - 1]) + (if IsRootLikePath(p) then One(MovesRootAway, About(p), Critical) else [])
  }

  function MvCp(a: seq<string>, move: bool): seq<Finding> {
    var ops := Operands(a);
    if |ops| < 2 then []
    else
      var dest := ops[|ops| - 1];
      var unsure := HasUnmodelledSyntax(dest);
      (if IsRootLikePath(dest) then
         [Finding(if move then MovesOntoRoot else CopiesOntoRoot, About(dest), Critical, unsure)]
       else if !(HasShortFlag(a, 'n') || HasLongFlag(a, "--no-clobber")) then
         [Finding(if move then MovesOver else CopiesOver, About(dest), Medium, unsure)]
       else [])
      + (if move then MovedAway(ops[..|ops| - 1]) else [])
  }

  /** Every operand after the first, which is the mode or the owner. */
  function Owned(ops: seq<string>, recursive: bool, own: bool): seq<Finding> {
    if |ops| <= 1 then []
    else
      var p := ops[|ops| - 1];
      Owned(ops[..|ops| - 1], recursive, own)
      + (if IsRootLikePath(p) then
           [Finding(if own then OwnsRoot else ModesRoot, About(p), Critical, HasUnmodelledSyntax(p))]
         else if recursive then
           [Finding(if own then OwnsTree else ModesTree, About(p), High, HasUnmodelledSyntax(p))]
         else [])
  }

  function ChmodChown(a: seq<string>, own: bool): seq<Finding> {
    var ops := Operands(a);
    Owned(ops, HasShortFlag(a, 'R') || HasLongFlag(a, "--recursive"), own)
    + (if !own && ops != [] && (ops[0] == "777" || ops[0] == "0777") then One(WorldWritable, About(ops[0]), High)
       else [])
  }

  function Systemctl(a: seq<string>): seq<Finding> {
    var ops := Operands(a);
    if ops == [] then []
    else
      var verb := Lower(ops[0]);
      var unit := About(if 1 < |ops| then ops[1] else "");
      if verb == "stop" || verb == "restart" || verb == "kill" then One(InterruptsService(verb), unit, High)
      else if verb == "disable" || verb == "mask" then One(DisablesService, unit, High)
      else if verb == "isolate" || verb == "poweroff" || verb == "reboot" || verb == "halt" then
        One(WholeMachine, About(verb), Critical)
      else if verb == "daemon-reload" || verb == "start" || verb == "enable" then One(ChangesService(verb), unit, Low)
      else []
  }

  function Docker(a: seq<string>): seq<Finding> {
    var ops := Operands(a);
    if ops == [] then []
    else
      var sub := Lower(ops[0]);
      var sub2 := if 1 < |ops| then Lower(ops[1]) else "";
      var volumes := HasShortFlag(a, 'v') || HasLongFlag(a, "--volumes");
      if sub == "compose" && 1 < |ops| then
        if sub2 != "down" then []
        else if volumes then One(ComposeDownVolumes, Fixed, Critical)
        else One(ComposeDown, Fixed, High)
      else if sub == "system" && sub2 == "prune" then
        if volumes then One(PruneVolumes, Fixed, Critical) else One(Prune, Fixed, High)
      else if sub == "rm" || sub == "rmi" then One(RemovesContainers, About(sub), High)
      else if sub == "volume" && (sub2 == "rm" || sub2 == "prune") then One(RemovesVolumes, Fixed, Critical)
      else if sub == "stop" || sub == "kill" || sub == "restart" then One(InterruptsContainers(sub), Fixed, High)
      else []
  }

  function GitClean(a: seq<string>): seq<Finding> {
    if !HasShortFlag(a, 'f') then []
    else if HasShortFlag(a, 'x') then One(CleanIgnored, Fixed, Critical)
    else if HasShortFlag(a, 'd') then One(CleanDirs, Fixed, High)
    else One(Clean, Fixed, High)
  }

  function GitPush(a: seq<string>): seq<Finding> {
    var lease := HasLongFlag(a, "--force-with-lease");
    (if lease then One(LeasePush, Fixed, High)
     else if HasShortFlag(a, 'f') || HasLongFlag(a, "--force") then One(ForcePush, Fixed, Critical)
     else [])
    + (if HasLongFlag(a, "--delete") then One(DeletesRemoteBranch, Fixed, High) else [])
  }

  function Git(a: seq<string>): seq<Finding> {
    var ops := Operands(a);
    if ops == [] then []
    else
      var sub := Lower(ops[0]);
      if sub == "reset" && HasLongFlag(a, "--hard") then One(HardReset, Fixed, High)
      else if sub == "clean" then GitClean(a)
      else if sub == "push" then GitPush(a)
      else if sub == "branch" && (HasShortFlag(a, 'D') || HasLongFlag(a, "--delete")) then
        One(DeletesBranch, Fixed, Medium)
      else if (sub == "checkout" || sub == "restore" || sub == "switch")
              && (HasLongFlag(a, "--force") || HasShortFlag(a, 'f')) then
        One(DiscardsLocal, About(sub), Medium)
      else []
  }

  function Kubectl(a: seq<string>): seq<Finding> {
    var ops := Operands(a);
    if ops == [] then []
    else
      var sub := Lower(ops[0]);
      var wide := HasLongFlag(a, "--all-namespaces") || HasShortFlag(a, 'A') || HasLongFlag(a, "--all");
      if sub == "delete" then
        if wide then One(DeletesWidely, Fixed, Critical) else One(DeletesResources, Fixed, High)
      else if sub == "drain" || sub == "cordon" then One(DrainsNode, About(sub), High)
      else if sub == "scale" then One(Scales, Fixed, Medium)
      else if sub == "rollout" && 1 < |ops| && Lower(ops[1]) == "undo" then One(UndoesRollout, Fixed, High)
      else []
  }

  function PackageTool(prog: string, a: seq<string>): seq<Finding> {
    var ops := Operands(a);
    if ops == [] then []
    else
      var sub := Lower(ops[0]);
      if sub == "purge" then One(PurgesPackages, About(prog + " " + sub), High)
      else if sub == "remove" || sub == "erase" || sub == "autoremove" || sub == "uninstall" then
        One(RemovesPackages, About(prog + " " + sub), Medium)
      else []
  }

  function DiskDump(args: seq<string>): seq<Finding> {
    if args == [] then []
    else
      var a := args[|args| - 1];
      DiskDump(args[..|args| - 1]) + (if "of=" <= a then One(WritesDevice, About(a), Critical) else [])
  }

  /** A statement pattern: its text, its finding, and the finding when a DELETE or UPDATE has no WHERE. */
  datatype Pattern = Pattern(text: string, what: What, level: RiskLevel, everyRow: bool, whatAll: What)

  const PATTERNS := [
    Pattern("drop database", DropsDatabase, Critical, false, DropsDatabase),
    Pattern("drop schema", DropsSchema, Critical, false, DropsSchema),
    Pattern("drop table", DropsTable, High, false, DropsTable),
    Pattern("truncate table", EmptiesTable, High, false, EmptiesTable),
    Pattern("delete from", DeletesRows, Medium, true, DeletesAllRows),
    Pattern("update ", UpdatesRows, Low, true, UpdatesAllRows)]

  /** Only the first pattern found is reported. */
  function FirstPattern(low: string, pats: seq<Pattern>): seq<Finding> {
    if pats == [] then []
    else if !Contains(low, pats[0].text) then FirstPattern(low, pats[1..])
    else if pats[0].everyRow && !Contains(low, " where ") then One(pats[0].whatAll, About(pats[0].text), Critical)
    else One(pats[0].what, About(pats[0].text), pats[0].level)
  }

  function Database(command: string): seq<Finding> {
    FirstPattern(Lower(command), PATTERNS)
  }

  datatype Program = Remove | Move | Copy | Mode | Owner | Service | Container | Repository | Cluster | Package | Format
                   | Dump | Machine | Other

  function ProgramOf(prog: string): Program {
    if prog == "rm" || prog == "shred" || prog == "unlink" then Remove
    else if prog == "mv" then Move
    else if prog == "cp" || prog == "rsync" then Copy
    else if prog == "chmod" then Mode
    else if prog == "chown" || prog == "chgrp" then Owner
    else if prog == "systemctl" || prog == "service" then Service
    else if prog == "docker" || prog == "podman" then Container
    else if prog == "git" then Repository
    else if prog == "kubectl" || prog == "k9s" || prog == "helm" then Cluster
    else if prog == "apt" || prog == "apt-get" || prog == "dnf" || prog == "yum" || prog == "pacman" || prog == "zypper"
         || prog == "pip" || prog == "npm" then Package
    else if prog == "mkfs" || "mkfs." <= prog then Format
    else if prog == "dd" then Dump
    else if prog == "shutdown" || prog == "reboot" || prog == "halt" || prog == "poweroff" || prog == "init" then
      Machine
    else Other
  }

  /** A database client and an unknown program are both searched as a whole for a SQL statement. */
  function Findings(prog: string, args: seq<string>, from: nat, command: string): seq<Finding>
    requires from <= |args|
  {
    var a := args[from..];
    match ProgramOf(prog)
    case Remove => Rm(a)
    case Move => MvCp(a, true)
    case Copy => MvCp(a, false)
    case Mode => ChmodChown(a, false)
    case Owner => ChmodChown(a, true)
    case Service => Systemctl(a)
    case Container => Docker(a)
    case Repository => Git(a)
    case Cluster => Kubectl(a)
    case Package => PackageTool(prog, a)
    case Format => One(Formats, About(prog), Critical)
    case Dump => DiskDump(args)
    case Machine => One(WholeMachine, About(prog), Critical)
    case Other => Database(command)
  }

  // ---- the command ----------------------------------------------------------------------------------------------

  predicate IsChainOp(a: string) {
    a in ["|", "||", "&&", ";", "|&", "&"]
  }

  /** Only the first command of a chain is read. */
  function FirstCommand(args: seq<string>): seq<string> {
    if args == [] || IsChainOp(args[0]) then [] else [args[0]] + FirstCommand(args[1..])
  }

  function SkipOptions(args: seq<string>, i: nat): (r: nat)
    requires i <= |args|
    ensures i <= r <= |args|
    decreases |args| - i
  {
    if i < |args| && args[i] != "" && args[i][0] == '-' then
      if args[i] in ["-u", "-g", "--user", "--group"] && i + 1 < |args| then SkipOptions(args, i + 2)
      else SkipOptions(args, i + 1)
    else i
  }

  predicate IsSudo(a: string) {
    a == "sudo" || a == "doas"
  }

  predicate IsPrefix(a: string) {
    || a in ["env", "nohup", "time"]
    || ('=' in a && '/' !in a && (IsAlpha(a[0]) || a[0] == '_'))
  }

  /** Walks past environment assignments, sudo with its options, and the like: where the program is, and whether sudo
    * was seen. */
  function SkipPrefix(args: seq<string>, i: nat, sudo: bool): (r: (nat, bool))
    requires i <= |args|
    ensures i <= r.0 <= |args|
    decreases |args| - i
  {
    if i == |args| then (i, sudo)
    else if IsSudo(args[i]) then SkipPrefix(args, SkipOptions(args, i + 1), true)
    else if IsPrefix(args[i]) then SkipPrefix(args, i + 1, sudo)
    else (i, sudo)
  }

  function BaseName(s: string): string {
    if s == "" then ""
    else if '/' in s[1..] || '\\' in s[1..] then BaseName(s[1..])
    else if s[0] == '/' || s[0] == '\\' then s[1..]
    else s
  }

  /** Why a report is incomplete; Complete when it is not. */
  datatype Why = Complete | UnclosedQuote | Chained | Substitution

  datatype Report = Report(level: RiskLevel, program: string, sudo: bool, findings: seq<Finding>, why: Why)

  function Worst(fs: seq<Finding>): RiskLevel {
    if fs == [] then None
    else
      var w := Worst(fs[..|fs| - 1]);
      if w.Rank() < fs[|fs| - 1].level.Rank() then fs[|fs| - 1].level else w
  }

  /** sudo makes a flagged command one step worse, up to Critical. */
  function Judged(program: string, sudo: bool, fs: seq<Finding>, why: Why): Report {
    var w := Worst(fs);
    if sudo && w != None && w != Critical then
      Report(w.Next(), program, sudo, fs + One(RunsAsRoot, Fixed, w), why)
    else Report(w, program, sudo, fs, why)
  }

  function Analysed(command: string): Report {
    var all := Split(command);
    var args := FirstCommand(all);
    var why := if |args| < |all| then Chained else if Unterminated(command) then UnclosedQuote else Complete;
    if args == [] then Report(None, "", false, [], why)
    else
      var why := if Contains(command, "$(") || '`' in command then Substitution else why;
      var (i, sudo) := SkipPrefix(args, 0, false);
      if i == |args| then Report(None, "", sudo, [], why)
      else
        var prog := Lower(BaseName(args[i]));
        Judged(prog, sudo, Findings(prog, args, i + 1, command), why)
  }

  // ---- what a report means --------------------------------------------------------------------------------------

  lemma {:induction false} WorstIsMax(fs: seq<Finding>)
    ensures forall f :: f in fs ==> f.level.Rank() <= Worst(fs).Rank()
    ensures fs != [] && (forall f :: f in fs ==> f.level != None) ==>
              Worst(fs) != None && exists f :: f in fs && f.level == Worst(fs)
  {
    if fs != [] {
      var n := |fs| - 1;
      WorstIsMax(fs[..n]);
      assert fs == fs[..n] + [fs[n]];
      if fs[..n] != [] && fs[n].level.Rank() <= Worst(fs[..n]).Rank() && (forall f :: f in fs ==> f.level != None) {
        var f :| f in fs[..n] && f.level == Worst(fs[..n]);
        assert f in fs;
      } else {
        assert fs[n] in fs;
      }
    }
  }

  ghost predicate AllFlagged(fs: seq<Finding>) {
    forall f :: f in fs ==> f.level != None
  }

  lemma {:induction false} RmTargetsFlag(ops: seq<string>, recursive: bool)
    ensures AllFlagged(RmTargets(ops, recursive)) && (ops != [] ==> RmTargets(ops, recursive) != [])
  {
    hide IsRootLikePath, HasUnmodelledSyntax;
    if ops != [] {
      RmTargetsFlag(ops[..|ops| - 1], recursive);
    }
  }

  lemma {:induction false} MovedAwayFlag(ops: seq<string>)
    ensures AllFlagged(MovedAway(ops))
  {
    hide IsRootLikePath;
    if ops != [] {
      MovedAwayFlag(ops[..|ops| - 1]);
    }
  }

  lemma {:induction false} OwnedFlag(ops: seq<string>, recursive: bool, own: bool)
    ensures AllFlagged(Owned(ops, recursive, own))
  {
    hide IsRootLikePath, HasUnmodelledSyntax;
    if 1 < |ops| {
      OwnedFlag(ops[..|ops| - 1], recursive, own);
    }
  }

  lemma {:induction false} DiskDumpFlag(args: seq<string>)
    ensures AllFlagged(DiskDump(args))
  {
    if args != [] {
      DiskDumpFlag(args[..|args| - 1]);
    }
  }

  lemma {:induction false} PatternsFlag(low: string, pats: seq<Pattern>)
    requires forall p :: p in pats ==> p.level != None
    ensures AllFlagged(FirstPattern(low, pats))
  {
    if pats != [] {
      PatternsFlag(low, pats[1..]);
    }
  }

  lemma FilesFlag(a: seq<string>, b: bool)
    ensures AllFlagged(Rm(a)) && AllFlagged(MvCp(a, b)) && AllFlagged(ChmodChown(a, b))
  {
    hide IsRootLikePath, HasUnmodelledSyntax, HasShortFlag, HasLongFlag, Operands, RmTarget;
    var ops := Operands(a);
    RmTargetsFlag(ops, RmRecursive(a));
    if 2 <= |ops| {
      MovedAwayFlag(ops[..|ops| - 1]);
    }
    OwnedFlag(ops, HasShortFlag(a, 'R') || HasLongFlag(a, "--recursive"), b);
  }

  lemma ServicesFlag(a: seq<string>)
    ensures AllFlagged(Systemctl(a)) && AllFlagged(Docker(a))
  {
    hide Lower, HasShortFlag, HasLongFlag, Operands;
  }

  lemma GitFlags(a: seq<string>)
    ensures AllFlagged(Git(a))
  {
    hide Lower, HasShortFlag, HasLongFlag, Operands;
  }

  lemma ToolsFlag(prog: string, a: seq<string>)
    ensures AllFlagged(Kubectl(a)) && AllFlagged(PackageTool(prog, a))
  {
    hide Lower, HasShortFlag, HasLongFlag, Operands;
  }

  /** Every finding of every family carries a level above None. */
  lemma FindingsFlag(prog: string, args: seq<string>, from: nat, command: string)
    requires from <= |args|
    ensures AllFlagged(Findings(prog, args, from, command))
  {
    hide Rm, MvCp, ChmodChown, Systemctl, Docker, Git, Kubectl, PackageTool, DiskDump, FirstPattern, Lower, ProgramOf;
    FilesFlag(args[from..], true);
    FilesFlag(args[from..], false);
    ServicesFlag(args[from..]);
    GitFlags(args[from..]);
    ToolsFlag(prog, args[from..]);
    DiskDumpFlag(args);
    PatternsFlag(Lower(command), PATTERNS);
  }

  /** One step up for a flagged command under sudo, unless it is at the top already. */
  function Raised(sudo: bool, w: RiskLevel): RiskLevel {
    if sudo && w != None && w != Critical then w.Next() else w
  }

  ghost predicate LevelOk(r: Report) {
    && AllFlagged(r.findings)
    && (r.level == None <==> r.findings == [])
    && r.level == Raised(r.sudo, Worst(r.findings))
    && (r.findings != [] ==>
          exists worst :: worst in r.findings && r.level == Raised(r.sudo, worst.level)
            && forall f :: f in r.findings ==> f.level.Rank() <= worst.level.Rank())
  }

  lemma JudgedLevel(program: string, sudo: bool, fs: seq<Finding>, why: Why)
    requires AllFlagged(fs)
    ensures LevelOk(Judged(program, sudo, fs, why))
  {
    var r := Judged(program, sudo, fs, why);
    WorstIsMax(fs);
    WorstIsMax(r.findings);
    if r.findings != fs {
      assert r.findings[..|fs|] == fs;
    }
  }

  /** The level of a report is that of the worst of its findings, or exactly one step above it when the command runs
    * under sudo and the worst is below Critical; and it is None exactly when there are no findings. */
  lemma ReportLevel(command: string)
    ensures LevelOk(Analysed(command))
  {
    hide Split, Unterminated, Contains, BaseName, Lower, FirstCommand, SkipPrefix, Findings, Worst, LevelOk;
    var r := Analysed(command);
    var args := FirstCommand(Split(command));
    if args != [] {
      var (i, sudo) := SkipPrefix(args, 0, false);
      if i < |args| {
        FindingsFlag(r.program, args, i + 1, command);
        JudgedLevel(r.program, sudo, Findings(r.program, args, i + 1, command), r.why);
      } else {
        NothingFound("", sudo, r.why);
      }
    } else {
      NothingFound("", false, r.why);
    }
  }

  lemma NothingFound(program: string, sudo: bool, why: Why)
    ensures LevelOk(Report(None, program, sudo, [], why))
  {}

  // ---- what the findings depend on ------------------------------------------------------------------------------

  /** The program of a command is one whose arguments alone decide the findings. */
  predicate ReadsArgumentsOnly(command: string) {
    var args := FirstCommand(Split(command));
    var i := SkipPrefix(args, 0, false).0;
    i < |args| ==> ProgramOf(Lower(BaseName(args[i]))) != Other
  }

  /** For such a program two commands with the same words up to the first chain operator get the same findings, however
    * they were quoted and whatever follows. */
  lemma FindingsFollowTheWords(a: string, b: string)
    requires FirstCommand(Split(a)) == FirstCommand(Split(b))
    requires ReadsArgumentsOnly(a)
    ensures Analysed(b).findings == Analysed(a).findings
    ensures Analysed(b).level == Analysed(a).level && Analysed(b).program == Analysed(a).program
  {
    hide Split, Unterminated, Contains, BaseName, Lower, FirstCommand, SkipPrefix, ProgramOf;
    hide Rm, MvCp, ChmodChown, Systemctl, Docker, Git, Kubectl, PackageTool, DiskDump, Database;
  }

  lemma {:induction false} FirstCommandStops(a: seq<string>, op: string, rest: seq<string>)
    requires IsChainOp(op)
    ensures FirstCommand(a + [op] + rest) == FirstCommand(a)
  {
    hide IsChainOp;
    var all := a + [op] + rest;
    if a == [] {
      assert all[0] == op;
    } else {
      assert all[1..] == a[1..] + [op] + rest;
      FirstCommandStops(a[1..], op, rest);
    }
  }

  lemma {:induction false} NoBackslashNoLone(st: Lex, s: string)
    requires '\\' !in s
    ensures !EndsLone(st, s)
    decreases |s|
  {
    if s != "" {
      NoBackslashNoLone(Step(st, s).0, s[Step(st, s).1..]);
    }
  }

  lemma OperatorIsOneWord(op: string)
    requires IsChainOp(op)
    ensures !Unterminated(op) && !EndsLone(START, op) && Split(op) == [op]
  {
    hide Split, Unterminated, EndsLone;
    assert forall c :: c in op ==> c == '|' || c == '&' || c == ';';
    NoBackslashNoLone(START, op);
    UnquotedWord(op);
  }

  /** Appending a spaced chain operator and any text to a command that ends in plain mode leaves its findings and level
    * as they were, provided its program is read by its arguments. */
  lemma ChainTailIsNotRead(a: string, op: string, tail: string)
    requires !Unterminated(a) && !EndsLone(START, a) && IsChainOp(op)
    requires ReadsArgumentsOnly(a)
    ensures var r := Analysed(a + " " + (op + " " + tail));
      r.findings == Analysed(a).findings && r.level == Analysed(a).level && r.why != Complete
  {
    hide IsChainOp, Unterminated, EndsLone, ReadsArgumentsOnly, Analysed, Split, FirstCommand;
    var whole := a + " " + (op + " " + tail);
    assert Split(whole) == Split(a) + [op] + Split(tail) by {
      OperatorIsOneWord(op);
      SplitConcat(op, tail);
      SplitConcat(a, op + " " + tail);
      assert Split(a) + ([op] + Split(tail)) == Split(a) + [op] + Split(tail);
    }
    FirstCommandStops(Split(a), op, Split(tail));
    FirstCommandIsShorter(Split(a));
    FindingsFollowTheWords(a, whole);
    ChainedIsIncomplete(whole);
  }

  lemma {:induction false} FirstCommandIsShorter(args: seq<string>)
    ensures |FirstCommand(args)| <= |args|
  {
    if args != [] {
      FirstCommandIsShorter(args[1..]);
    }
  }

  lemma ChainedIsIncomplete(command: string)
    requires |FirstCommand(Split(command))| < |Split(command)|
    ensures Analysed(command).why != Complete
  {
    hide Split, FirstCommand, Unterminated, Contains, SkipPrefix, Findings, BaseName, Lower;
  }

  /** Any other program is not treated so: the whole line, chain and all, is searched for a SQL statement. */
  lemma OtherProgramsReadTheWholeLine(command: string)
    requires var args := FirstCommand(Split(command));
      var i := SkipPrefix(args, 0, false).0;
      i < |args| && ProgramOf(Lower(BaseName(args[i]))) == Other
    ensures Database(command) <= Analysed(command).findings
    ensures Database(command) == [] ==> Analysed(command).findings == []
  {
    hide Split, Unterminated, Contains, BaseName, Lower, FirstCommand, SkipPrefix, ProgramOf, Database;
  }

  lemma {:induction false} FoundIffContained(low: string, pats: seq<Pattern>)
    ensures FirstPattern(low, pats) != [] <==> exists p :: p in pats && Contains(low, p.text)
  {
    hide Contains;
    if pats != [] {
      FoundIffContained(low, pats[1..]);
      assert pats == [pats[0]] + pats[1..];
    }
  }

  lemma {:induction false} ContainsInside(before: string, t: string, after: string)
    ensures Contains(before + t + after, t)
  {
    if before == "" {
      assert before + t + after == t + after;
    } else {
      assert (before + t + after)[1..] == before[1..] + t + after;
      ContainsInside(before[1..], t, after);
    }
  }

  lemma LowerOfConcat(a: string, b: string)
    ensures Lower(a + b) == Lower(a) + Lower(b)
  {}

  function WithTail(a: string, op: string, tail: string): string {
    a + " " + (op + " " + tail)
  }

  const DROP_DATABASE := "drop database"

  lemma DropDatabaseWins(command: string)
    ensures Contains(Lower(command), DROP_DATABASE) ==>
      Database(command) == One(DropsDatabase, About(DROP_DATABASE), Critical)
    ensures !Contains(Lower(command), DROP_DATABASE) ==>
            Database(command) == FirstPattern(Lower(command), PATTERNS[1..])
  {
    hide Lower, Contains;
  }

  lemma {:induction false} NoOtherDropsDatabase(low: string, pats: seq<Pattern>)
    requires forall p :: p in pats ==> p.what != DropsDatabase && p.whatAll != DropsDatabase
    ensures forall f :: f in FirstPattern(low, pats) ==> f.what != DropsDatabase
  {
    hide Contains;
    if pats != [] {
      NoOtherDropsDatabase(low, pats[1..]);
    }
  }

  /** The program of a command that is searched as a whole: its findings are those of the line. */
  lemma OtherIsSearched(command: string)
    requires !ReadsArgumentsOnly(command)
    ensures var r := Analysed(command);
      r.findings == Judged(r.program, r.sudo, Database(command), r.why).findings
  {
    hide Split, Unterminated, Contains, BaseName, Lower, FirstCommand, SkipPrefix, ProgramOf, Database, Judged;
    JudgedKeeps();
  }

  lemma JudgedKeeps()
    ensures forall program, sudo, fs, why :: var r := Judged(program, sudo, fs, why);
      r.program == program && r.sudo == sudo && r.why == why
  {}

  lemma SameWordsSameProgram(a: string, b: string)
    requires FirstCommand(Split(a)) == FirstCommand(Split(b))
    ensures ReadsArgumentsOnly(a) == ReadsArgumentsOnly(b)
    ensures !ReadsArgumentsOnly(a) ==>
            Analysed(a).program == Analysed(b).program && Analysed(a).sudo == Analysed(b).sudo
  {
    hide Split, Unterminated, Contains, BaseName, Lower, FirstCommand, SkipPrefix, ProgramOf, Findings, Worst;
  }

  lemma TailKeepsTheWords(a: string, op: string, tail: string)
    requires !Unterminated(a) && !EndsLone(START, a) && IsChainOp(op)
    ensures FirstCommand(Split(WithTail(a, op, tail))) == FirstCommand(Split(a))
  {
    hide IsChainOp, Unterminated, EndsLone, Split, FirstCommand;
    OperatorIsOneWord(op);
    SplitConcat(op, tail);
    SplitConcat(a, op + " " + tail);
    assert Split(a) + ([op] + Split(tail)) == Split(a) + [op] + Split(tail);
    FirstCommandStops(Split(a), op, Split(tail));
  }

  lemma {:induction false} ContainsGrows(before: string, s: string, after: string, t: string)
    requires Contains(s, t)
    ensures Contains(before + s + after, t)
    decreases |before| + |s|
  {
    if before != "" {
      assert (before + s + after)[1..] == before[1..] + s + after;
      ContainsGrows(before[1..], s, after, t);
    } else if t <= s {
      assert before + s + after == s + after && t <= s + after;
    } else {
      assert (before + s + after)[1..] == "" + s[1..] + after;
      ContainsGrows("", s[1..], after, t);
    }
  }

  lemma FirstStatementStays(a: string, op: string, tail: string)
    requires Contains(Lower(a), DROP_DATABASE)
    ensures Contains(Lower(WithTail(a, op, tail)), DROP_DATABASE)
  {
    hide Lower, Contains;
    var rest := " " + (op + " " + tail);
    assert WithTail(a, op, tail) == a + rest;
    LowerOfConcat(a, rest);
    ContainsGrows("", Lower(a), Lower(rest), DROP_DATABASE);
    assert "" + Lower(a) + Lower(rest) == Lower(a) + Lower(rest);
  }

  lemma TailIsSearched(a: string)
    ensures Contains(Lower(WithTail(a, ";", DROP_DATABASE)), DROP_DATABASE)
  {
    hide Lower, Contains;
    var head := a + " " + (";" + " ");
    assert WithTail(a, ";", DROP_DATABASE) == head + DROP_DATABASE;
    LowerOfConcat(head, DROP_DATABASE);
    AlreadyLower();
    ContainsInside(Lower(head), DROP_DATABASE, "");
    assert Lower(head) + DROP_DATABASE + "" == Lower(head) + DROP_DATABASE;
  }

  lemma AlreadyLower()
    ensures Lower(DROP_DATABASE) == DROP_DATABASE
  {}

  lemma OnlyItDropsDatabase(command: string)
    ensures Database(command) != [] && Database(command)[0].what == DropsDatabase <==>
            Contains(Lower(command), DROP_DATABASE)
  {
    hide Lower, Contains, Database;
    DropDatabaseWins(command);
    NoOtherDropsDatabase(Lower(command), PATTERNS[1..]);
    var found := Database(command);
    assert found != [] ==> found[0] in found;
  }

  lemma TailCanChange(a: string)
    requires !Unterminated(a) && !EndsLone(START, a)
    requires !ReadsArgumentsOnly(a) && !Contains(Lower(a), DROP_DATABASE)
    ensures Analysed(WithTail(a, ";", DROP_DATABASE)).findings != Analysed(a).findings
  {
    hide *;
    var whole := WithTail(a, ";", DROP_DATABASE);
    assert IsChainOp(";") by { SemicolonChains(); }
    TailKeepsTheWords(a, ";", DROP_DATABASE);
    SameWordsSameProgram(a, whole);
    TailIsSearched(a);
    OtherIsSearched(whole);
    OtherIsSearched(a);
    OnlyItDropsDatabase(whole);
    OnlyItDropsDatabase(a);
    JudgedStarts(Analysed(whole), Database(whole));
    JudgedStarts(Analysed(a), Database(a));
  }

  lemma SemicolonChains()
    ensures IsChainOp(";")
  {}

  lemma JudgedStarts(r: Report, fs: seq<Finding>)
    ensures var found := Judged(r.program, r.sudo, fs, r.why).findings;
      (found == [] <==> fs == []) && (fs != [] ==> found[0] == fs[0])
  {}

  /** For a command that ends in plain mode: no chain operator with anything behind it ever changes the findings,
    * exactly when the program is read by its arguments, or the command holds the statement that is looked for first.
    * For any other command a tail that drops a database does. */
  lemma TailChangesNothingIff(a: string)
    requires !Unterminated(a) && !EndsLone(START, a)
    ensures (forall op, tail :: IsChainOp(op) ==> Analysed(WithTail(a, op, tail)).findings == Analysed(a).findings) <==>
      ReadsArgumentsOnly(a) || Contains(Lower(a), DROP_DATABASE)
  {
    hide Unterminated, EndsLone, ReadsArgumentsOnly, Analysed, Lower, Contains, Database, Judged, FirstCommand, Split;
    if ReadsArgumentsOnly(a) {
      forall op, tail | IsChainOp(op)
        ensures Analysed(WithTail(a, op, tail)).findings == Analysed(a).findings
      {
        ChainTailIsNotRead(a, op, tail);
      }
    } else if Contains(Lower(a), DROP_DATABASE) {
      forall op, tail | IsChainOp(op)
        ensures Analysed(WithTail(a, op, tail)).findings == Analysed(a).findings
      {
        FirstStatementTail(a, op, tail);
      }
    } else {
      TailCanChange(a);
      assert IsChainOp(";");
    }
  }

  lemma FirstStatementTail(a: string, op: string, tail: string)
    requires !Unterminated(a) && !EndsLone(START, a) && IsChainOp(op)
    requires !ReadsArgumentsOnly(a) && Contains(Lower(a), DROP_DATABASE)
    ensures Analysed(WithTail(a, op, tail)).findings == Analysed(a).findings
  {
    hide Unterminated, EndsLone, IsChainOp, Split, FirstCommand, ReadsArgumentsOnly, Analysed, WithTail, Lower,
         Contains, Database;
    hide Worst;
    var whole := WithTail(a, op, tail);
    TailKeepsTheWords(a, op, tail);
    SameWordsSameProgram(a, whole);
    FirstStatementStays(a, op, tail);
    OtherIsSearched(whole);
    OtherIsSearched(a);
    DropDatabaseWins(whole);
    DropDatabaseWins(a);
  }

  // ---- what stands before the program ---------------------------------------------------------------------------

  /** sudo is noted exactly when it, or doas, is among the words stepped over. */
  lemma {:induction false} SudoSeenIff(args: seq<string>, i: nat, sudo: bool)
    requires i <= |args|
    ensures var (k, seen) := SkipPrefix(args, i, sudo);
      seen <==> sudo || exists j :: i <= j < k && IsSudo(args[j])
    decreases |args| - i
  {
    hide IsSudo, IsPrefix, SkipOptions;
    if i < |args| {
      if IsSudo(args[i]) {
        SudoSeenIff(args, SkipOptions(args, i + 1), true);
      } else if IsPrefix(args[i]) {
        SudoSeenIff(args, i + 1, sudo);
      }
    }
  }

  lemma ReportSudoIff(command: string)
    ensures var args := FirstCommand(Split(command));
      Analysed(command).sudo <==> exists j :: 0 <= j < SkipPrefix(args, 0, false).0 && IsSudo(args[j])
  {
    hide Split, Unterminated, Contains, BaseName, Lower, FirstCommand, SkipPrefix, Findings, IsSudo, Worst;
    SudoSeenIff(FirstCommand(Split(command)), 0, false);
  }

  predicate IsOption(a: string) {
    a != "" && a[0] == '-'
  }

  predicate TakesValue(a: string) {
    a == "-u" || a == "-g" || a == "--user" || a == "--group"
  }

  /** Options, each of the four that take a value with its value. */
  predicate OptionWords(ws: seq<string>) {
    || ws == []
    || (IsOption(ws[0]) && if TakesValue(ws[0]) then 2 <= |ws| && OptionWords(ws[2..]) else OptionWords(ws[1..]))
  }

  predicate SudoWords(ws: seq<string>) {
    ws != [] && (ws[0] == "sudo" || ws[0] == "doas") && OptionWords(ws[1..])
  }

  lemma {:induction false} OptionsStepped(ws: seq<string>, args: seq<string>, i: nat)
    requires i <= |ws| && OptionWords(ws[i..]) && (args != [] ==> !IsOption(args[0]))
    ensures SkipOptions(ws + args, i) == |ws|
    decreases |ws| - i
  {
    var all := ws + args;
    if i < |ws| {
      assert all[i] == ws[i] && ws[i..][0] == ws[i];
      if TakesValue(ws[i]) {
        assert ws[i..][2..] == ws[i + 2..];
        OptionsStepped(ws, args, i + 2);
      } else {
        assert ws[i..][1..] == ws[i + 1..];
        OptionsStepped(ws, args, i + 1);
      }
    } else {
      assert args != [] ==> all[i] == args[0];
    }
  }

  lemma {:induction false} SkipOptionsShift(pre: seq<string>, args: seq<string>, i: nat)
    requires i <= |args|
    ensures SkipOptions(pre + args, |pre| + i) == |pre| + SkipOptions(args, i)
    decreases |args| - i
  {
    if i < |args| {
      assert (pre + args)[|pre| + i] == args[i];
      SkipOptionsShift(pre, args, i + 1);
      if i + 1 < |args| {
        SkipOptionsShift(pre, args, i + 2);
      }
    }
  }

  /** Having seen sudo already changes nothing but that. */
  lemma {:induction false} SeenOrNot(args: seq<string>, i: nat)
    requires i <= |args|
    ensures SkipPrefix(args, i, true) == (SkipPrefix(args, i, false).0, true)
    decreases |args| - i
  {
    hide IsSudo, IsPrefix, SkipOptions;
    if i < |args| && !IsSudo(args[i]) && IsPrefix(args[i]) {
      SeenOrNot(args, i + 1);
    } else if i < |args| && IsSudo(args[i]) {
      SudoSeenIff(args, SkipOptions(args, i + 1), true);
    }
  }

  lemma {:induction false} SkipPrefixShift(pre: seq<string>, args: seq<string>, i: nat, sudo: bool)
    requires i <= |args|
    ensures SkipPrefix(pre + args, |pre| + i, sudo) ==
            (|pre| + SkipPrefix(args, i, sudo).0, SkipPrefix(args, i, sudo).1)
    decreases |args| - i
  {
    hide IsSudo, IsPrefix, SkipOptions;
    if i < |args| {
      assert (pre + args)[|pre| + i] == args[i];
      if IsSudo(args[i]) {
        SkipOptionsShift(pre, args, i + 1);
        SkipPrefixShift(pre, args, SkipOptions(args, i + 1), true);
      } else if IsPrefix(args[i]) {
        SkipPrefixShift(pre, args, i + 1, sudo);
      }
    }
  }

  /** Behind sudo or doas with its options the same program is found, and sudo is noted. */
  lemma SudoStepped(ws: seq<string>, args: seq<string>)
    requires SudoWords(ws) && (args != [] ==> !IsOption(args[0]))
    ensures SkipPrefix(ws + args, 0, false) == (|ws| + SkipPrefix(args, 0, false).0, true)
  {
    hide IsPrefix, OptionWords, SkipOptions, IsOption;
    assert (ws + args)[0] == ws[0];
    OptionsStepped(ws, args, 1);
    SkipPrefixShift(ws, args, 0, true);
    SeenOrNot(args, 0);
  }

  /** Behind an assignment, env, nohup or time the same program is found. */
  lemma PrefixStepped(w: string, args: seq<string>)
    requires IsPrefix(w) && !IsSudo(w)
    ensures SkipPrefix([w] + args, 0, false) == (1 + SkipPrefix(args, 0, false).0, SkipPrefix(args, 0, false).1)
  {
    hide IsPrefix, IsSudo;
    SkipPrefixShift([w], args, 0, false);
  }

  lemma {:induction false} FirstCommandBehind(pre: seq<string>, args: seq<string>)
    requires forall w :: w in pre ==> !IsChainOp(w)
    ensures FirstCommand(pre + args) == pre + FirstCommand(args)
  {
    hide IsChainOp;
    if pre == [] {
      assert pre + args == args;
    } else {
      assert (pre + args)[1..] == pre[1..] + args;
      FirstCommandBehind(pre[1..], args);
    }
  }

  lemma {:induction false} DiskDumpBehind(pre: seq<string>, args: seq<string>)
    requires forall w :: w in pre ==> !("of=" <= w)
    ensures DiskDump(pre + args) == DiskDump(args)
    decreases |pre| + |args|
  {
    if args != [] {
      assert (pre + args)[..|pre + args| - 1] == pre + args[..|args| - 1];
      DiskDumpBehind(pre, args[..|args| - 1]);
    } else if pre != [] {
      var n := |pre| - 1;
      assert pre + args == pre && pre[..n] + [] == pre[..n] && pre[n] in pre;
      assert forall w :: w in pre[..n] ==> w in pre;
      DiskDumpBehind(pre[..n], []);
    }
  }

  /** Where the program of a command is among its words. */
  function ProgramAt(command: string): (i: nat)
    ensures i <= |FirstCommand(Split(command))|
  {
    SkipPrefix(FirstCommand(Split(command)), 0, false).0
  }

  predicate HasProgram(command: string) {
    ProgramAt(command) < |FirstCommand(Split(command))|
  }

  /** Words that may stand before a command without being taken for the end of it or for a target of dd. */
  predicate PlainWords(ws: seq<string>) {
    forall w :: w in ws ==> !IsChainOp(w) && !("of=" <= w)
  }

  /** The findings before sudo is considered. */
  function OwnFindings(command: string): seq<Finding>
    requires HasProgram(command)
  {
    var args := FirstCommand(Split(command));
    Findings(Lower(BaseName(args[ProgramAt(command)])), args, ProgramAt(command) + 1, command)
  }

  lemma AnalysedIs(command: string)
    requires HasProgram(command)
    ensures var r := Analysed(command);
      && r.findings == Judged(r.program, r.sudo, OwnFindings(command), r.why).findings
      && r.level == Judged(r.program, r.sudo, OwnFindings(command), r.why).level
      && r.program == Lower(BaseName(FirstCommand(Split(command))[ProgramAt(command)]))
      && r.sudo == SkipPrefix(FirstCommand(Split(command)), 0, false).1
  {
    hide Split, Unterminated, Contains, BaseName, Lower, FirstCommand, SkipPrefix, Findings, Worst;
  }

  lemma FindingsBehind(prog: string, pre: seq<string>, args: seq<string>, from: nat, whole: string, command: string)
    requires from <= |args| && ProgramOf(prog) != Other && PlainWords(pre)
    ensures Findings(prog, pre + args, |pre| + from, whole) == Findings(prog, args, from, command)
  {
    hide Rm, MvCp, ChmodChown, Systemctl, Docker, Git, Kubectl, PackageTool, DiskDump, Database, ProgramOf, IsChainOp;
    assert (pre + args)[|pre| + from..] == args[from..];
    DiskDumpBehind(pre, args);
  }

  /** Words before a command that are stepped over leave it its program and its findings. */
  lemma Behind(front: string, c: string, sudo: bool)
    requires !Unterminated(front) && !EndsLone(START, front) && PlainWords(Split(front))
    requires HasProgram(c) && ReadsArgumentsOnly(c)
    requires SkipPrefix(Split(front) + FirstCommand(Split(c)), 0, false) == (|Split(front)| + ProgramAt(c), sudo)
    ensures var whole := front + " " + c;
      && HasProgram(whole) && OwnFindings(whole) == OwnFindings(c)
      && Analysed(whole).sudo == sudo && Analysed(whole).program == Analysed(c).program
  {
    hide Split, Unterminated, EndsLone, Analysed, FirstCommand, SkipPrefix, Findings, ProgramOf, Lower, BaseName,
         IsChainOp;
    var whole, pre, args := front + " " + c, Split(front), FirstCommand(Split(c));
    SplitConcat(front, c);
    FirstCommandBehind(pre, Split(c));
    AnalysedIs(whole);
    AnalysedIs(c);
    FindingsBehind(Lower(BaseName(args[ProgramAt(c)])), pre, args, ProgramAt(c) + 1, whole, c);
  }

  /** What sudo, or doas, with any options does to a command that is read by its arguments: sudo is noted, the program
    * and the findings are those without it, and the level is one step above, unless the command ran under sudo
    * already. */
  lemma UnderSudo(front: string, c: string)
    requires !Unterminated(front) && !EndsLone(START, front) && PlainWords(Split(front)) && SudoWords(Split(front))
    requires HasProgram(c) && ReadsArgumentsOnly(c) && !IsOption(FirstCommand(Split(c))[0])
    ensures var r, was := Analysed(front + " " + c), Analysed(c);
      && r.sudo && r.program == was.program && was.findings <= r.findings
      && r.level == (if was.sudo then was.level else Raised(true, was.level))
      && r.findings == was.findings + if r.level != was.level then One(RunsAsRoot, Fixed, was.level) else []
  {
    hide Split, Unterminated, EndsLone, Analysed, FirstCommand, SkipPrefix, ReadsArgumentsOnly, HasProgram, ProgramAt,
         OwnFindings, PlainWords, SudoWords, IsOption, Worst;
    SudoStepped(Split(front), FirstCommand(Split(c)));
    assert SkipPrefix(FirstCommand(Split(c)), 0, false).0 == ProgramAt(c) by { ProgramIsAt(c); }
    Behind(front, c, true);
    AnalysedIs(front + " " + c);
    AnalysedIs(c);
  }

  lemma ProgramIsAt(c: string)
    ensures ProgramAt(c) == SkipPrefix(FirstCommand(Split(c)), 0, false).0
  {}

  lemma PlainSudo(front: string)
    requires front == "sudo" || front == "doas"
    ensures Split(front) == [front] && !Unterminated(front) && !EndsLone(START, front)
    ensures PlainWords(Split(front)) && SudoWords(Split(front))
  {
    hide Split, Unterminated, EndsLone;
    NoBackslashNoLone(START, front);
    UnquotedWord(front);
    NoTargetOfDump(front);
  }

  /** The same for the bare words. */
  lemma SudoIsOneStepWorse(front: string, c: string)
    requires front == "sudo" || front == "doas"
    requires HasProgram(c) && ReadsArgumentsOnly(c) && !IsOption(FirstCommand(Split(c))[0]) && !Analysed(c).sudo
    ensures var r, was := Analysed(front + " " + c), Analysed(c);
      r.sudo && r.program == was.program && was.findings <= r.findings && r.level == Raised(true, was.level)
  {
    hide Split, Unterminated, EndsLone, Analysed, PlainWords, SudoWords, HasProgram, ReadsArgumentsOnly, IsOption;
    PlainSudo(front);
    UnderSudo(front, c);
  }

  /** Plain text without blanks, quotes or backslashes. */
  predicate PlainText(s: string) {
    s != "" && forall c :: c in s ==> PieceOk(Bare(c))
  }

  lemma PlainIsOneWord(s: string)
    requires PlainText(s)
    ensures Split(s) == [s] && !Unterminated(s) && !EndsLone(START, s)
  {
    hide Split, Unterminated, EndsLone;
    NoBackslashNoLone(START, s);
    UnquotedWord(s);
  }

  /** `sudo -u x` and its like before a command. */
  lemma SudoAsUser(front: string, option: string, user: string, c: string)
    requires (front == "sudo" || front == "doas") && TakesValue(option) && PlainText(user) && PlainWords([user])
    requires HasProgram(c) && ReadsArgumentsOnly(c) && !IsOption(FirstCommand(Split(c))[0]) && !Analysed(c).sudo
    ensures var r, was := Analysed(front + " " + (option + " " + user) + " " + c), Analysed(c);
      r.sudo && r.program == was.program && was.findings <= r.findings && r.level == Raised(true, was.level)
  {
    hide Split, Unterminated, EndsLone, Analysed, HasProgram, ReadsArgumentsOnly, IsOption, PlainText;
    var text := front + " " + (option + " " + user);
    OptionIsPlain(option);
    PlainIsOneWord(option);
    PlainIsOneWord(user);
    SplitConcat(option, user);
    PlainSudo(front);
    SplitConcat(front, option + " " + user);
    var ws := [front, option, user];
    assert Split(text) == ws by { assert [front] + ([option] + [user]) == ws; }
    SudoWithUser(front, option, user);
    assert '\\' !in text by { UserIsPlain(front, option, user); }
    NoBackslashNoLone(START, text);
    UnderSudo(text, c);
  }

  lemma UserIsPlain(front: string, option: string, user: string)
    requires (front == "sudo" || front == "doas") && TakesValue(option) && PlainText(user)
    ensures '\\' !in front + " " + (option + " " + user)
  {}

  lemma OptionIsPlain(option: string)
    requires TakesValue(option)
    ensures PlainText(option) && PlainWords([option])
  {
    NoTargetOfDump(option);
  }

  lemma SudoWithUser(front: string, option: string, user: string)
    requires (front == "sudo" || front == "doas") && TakesValue(option) && PlainWords([user])
    ensures SudoWords([front, option, user]) && PlainWords([front, option, user])
  {
    assert [front, option, user][1..] == [option, user] && [option, user][2..] == [];
    assert user in [user];
    NoTargetOfDump(front);
    NoTargetOfDump(option);
  }

  /** A name that may be assigned to. */
  predicate IsName(s: string) {
    s != "" && (IsAlpha(s[0]) || s[0] == '_') && '/' !in s && '=' !in s
  }

  /** An assignment is stepped over exactly when its value holds no slash. */
  lemma AssignmentIsPrefixIff(name: string, value: string)
    requires IsName(name)
    ensures var w := name + "=" + value;
      && !IsSudo(w) && !IsChainOp(w) && ("of=" <= w <==> name == "of")
      && (IsPrefix(w) <==> '/' !in value)
  {
    var w := name + "=" + value;
    assert '=' in w by { assert w[|name|] == '='; }
    assert w[0] == name[0];
    if "of=" <= w {
      assert w[0] == 'o' && w[1] == 'f' && w[2] == '=';
      assert w[|name|] == '=';
      assert name == "of";
    }
    if name == "of" {
      assert w == "of=" + value;
    }
  }

  lemma NoTargetOfDump(w: string)
    requires w != "" && w[0] != 'o'
    ensures !("of=" <= w)
  {}

  /** Before a command an assignment, however quoted, changes nothing in the report, exactly if its value holds no
    * slash; otherwise the assignment itself is taken for the program. */
  lemma BehindAssignment(front: string, name: string, value: string, c: string)
    requires !Unterminated(front) && !EndsLone(START, front) && Split(front) == [name + "=" + value]
    requires IsName(name) && name != "of" && HasProgram(c) && ReadsArgumentsOnly(c)
    ensures var r, was := Analysed(front + " " + c), Analysed(c);
      if '/' in value then r.program == Lower(BaseName(name + "=" + value)) && !r.sudo
      else r.program == was.program && r.sudo == was.sudo && r.findings == was.findings && r.level == was.level
  {
    hide Split, Unterminated, EndsLone, Analysed, FirstCommand, SkipPrefix, ReadsArgumentsOnly, HasProgram, ProgramAt,
         OwnFindings, Findings, IsChainOp, IsPrefix, IsSudo, Worst, Lower, BaseName;
    var w, args := name + "=" + value, FirstCommand(Split(c));
    AssignmentIsPrefixIff(name, value);
    if '/' in value {
      SplitConcat(front, c);
      FirstCommandBehind([w], Split(c));
      NotSteppedOver(front + " " + c, [w] + FirstCommand(Split(c)));
    } else {
      PrefixStepped(w, args);
      ProgramIsAt(c);
      AnalysedIs(c);
      Behind(front, c, Analysed(c).sudo);
      AnalysedIs(front + " " + c);
    }
  }

  const DELETE := "rm -rf /"
  const BEHIND_A_PATH := "A=/b rm -rf /"

  lemma WordsOfDelete()
    ensures Split(DELETE) == ["rm", "-rf", "/"] && Split(BEHIND_A_PATH) == ["A=/b", "rm", "-rf", "/"]
  {
    hide Split, Unterminated, EndsLone;
    PlainIsOneWord("A=/b");
    PlainIsOneWord("rm");
    PlainIsOneWord("-rf");
    PlainIsOneWord("/");
    SplitConcat("-rf", "/");
    SplitConcat("rm", "-rf /");
    SplitConcat("A=/b", DELETE);
    assert "-rf" + " " + "/" == "-rf /";
    assert "rm" + " " + "-rf /" == DELETE;
    assert "A=/b" + " " + DELETE == BEHIND_A_PATH;
    assert ["rm"] + (["-rf"] + ["/"]) == ["rm", "-rf", "/"];
    assert ["A=/b"] + ["rm", "-rf", "/"] == ["A=/b", "rm", "-rf", "/"];
  }

  lemma NoOperatorAmong(args: seq<string>)
    requires forall a :: a in args ==> !IsChainOp(a)
    ensures FirstCommand(args) == args
  {
    FirstCommandBehind(args, []);
    assert args + [] == args;
  }

  /** A first word that is not stepped over is the program. */
  lemma NotSteppedOver(command: string, args: seq<string>)
    requires args == FirstCommand(Split(command)) && args != [] && !IsPrefix(args[0]) && !IsSudo(args[0])
    ensures var r := Analysed(command);
      && r.program == Lower(BaseName(args[0])) && !r.sudo
      && r.findings == Findings(r.program, args, 1, command) && r.level == Worst(r.findings)
  {
    hide Split, Unterminated, Contains, BaseName, Lower, FirstCommand, Findings, Worst;
  }

  /** So a delete of everything is Critical by itself, and not seen behind the assignment of a path. */
  lemma DeleteIsHidden()
    ensures Analysed(DELETE).level == Critical && Analysed(BEHIND_A_PATH).findings == []
  {
    hide Split, Unterminated, EndsLone, Analysed, FirstCommand, Findings, Worst, IsChainOp;
    var plain, behind := ["rm", "-rf", "/"], ["A=/b", "rm", "-rf", "/"];
    WordsOfDelete();
    NoOperators();
    NoOperatorAmong(plain);
    NoOperatorAmong(behind);
    NotSteppedOver(DELETE, plain);
    NotSteppedOver(BEHIND_A_PATH, behind);
    assert Lower(BaseName("rm")) == "rm" && Lower(BaseName("A=/b")) == "b";
    DeleteLevel();
    NothingSaid();
  }

  lemma NoOperators()
    ensures forall w :: w in ["rm", "-rf", "/"] || w in ["A=/b", "rm", "-rf", "/"] ==> !IsChainOp(w)
  {}

  lemma DeleteLevel()
    ensures Worst(Findings("rm", ["rm", "-rf", "/"], 1, DELETE)) == Critical
  {
    var a := ["-rf", "/"];
    assert ["rm", "-rf", "/"][1..] == a;
    RmLevel(a);
    assert a[1..] == ["/"] && ["/"][1..] == [];
    assert Operands(a) == ["/"];
  }

  lemma {:induction false} NotContained(s: string, t: string, c: char)
    requires c in t && c !in s
    ensures !Contains(s, t)
  {
    if s != "" {
      NotContained(s[1..], t, c);
    }
  }

  lemma NothingSaid()
    ensures Findings("b", ["A=/b", "rm", "-rf", "/"], 1, BEHIND_A_PATH) == []
  {
    hide Rm, MvCp, ChmodChown, Systemctl, Docker, Git, Kubectl, PackageTool, DiskDump, Lower, FirstPattern;
    LowerOfHidden();
    NoStatement(Lower(BEHIND_A_PATH));
  }

  lemma NoStatement(low: string)
    requires 'd' !in low && 't' !in low && 'u' !in low
    ensures FirstPattern(low, PATTERNS) == []
  {
    hide Contains;
    forall p | p in PATTERNS
      ensures !Contains(low, p.text)
    {
      StatementStarts(p);
      NotContained(low, p.text, p.text[0]);
    }
    FoundIffContained(low, PATTERNS);
  }

  lemma LowerOfHidden()
    ensures 'd' !in Lower(BEHIND_A_PATH) && 't' !in Lower(BEHIND_A_PATH) && 'u' !in Lower(BEHIND_A_PATH)
  {
    assert Lower(BEHIND_A_PATH) == "a=/b rm -rf /";
  }

  lemma StatementStarts(p: Pattern)
    requires p in PATTERNS
    ensures p.text != "" && (p.text[0] == 'd' || p.text[0] == 't' || p.text[0] == 'u')
  {}

  // ---- rm -------------------------------------------------------------------------------------------------------

  lemma {:induction false} OperandsGrow(a: seq<string>, x: string)
    ensures Operands(a) <= Operands(a + [x]) && |Operands(a + [x])| <= |Operands(a)| + 1
    decreases |a|
  {
    if a == [] {
      assert [] + [x] == [x] && [x][1..] == [];
    } else {
      assert (a + [x])[1..] == a[1..] + [x];
      OperandsGrow(a[1..], x);
    }
  }

  /** The worst of the target findings: Critical as soon as one target is a root, otherwise High as soon as the delete
    * is recursive or a target is a wildcard, otherwise Medium. */
  function TargetsLevel(ops: seq<string>, recursive: bool): RiskLevel {
    if ops == [] then None
    else if AnyRoot(ops) then Critical
    else if recursive || AnyWildcard(ops) then High
    else Medium
  }

  predicate AnyRoot(ops: seq<string>) {
    exists p :: p in ops && IsRootLikePath(p)
  }

  predicate AnyWildcard(ops: seq<string>) {
    exists p :: p in ops && ('*' in p || '?' in p)
  }

  lemma AnyOfNone()
    ensures !AnyRoot([]) && !AnyWildcard([])
  {}

  lemma AnyOfLonger(ops: seq<string>, p: string)
    ensures AnyRoot(ops + [p]) == (AnyRoot(ops) || IsRootLikePath(p))
    ensures AnyWildcard(ops + [p]) == (AnyWildcard(ops) || '*' in p || '?' in p)
  {}

  lemma {:induction false} WorstOfTwo(fs: seq<Finding>, gs: seq<Finding>)
    ensures Worst(fs + gs) == if Worst(fs).Rank() < Worst(gs).Rank() then Worst(gs) else Worst(fs)
    decreases |gs|
  {
    if gs == [] {
      assert fs + gs == fs;
    } else {
      var n := |gs| - 1;
      assert (fs + gs)[..|fs + gs| - 1] == fs + gs[..n] && (fs + gs)[|fs + gs| - 1] == gs[n];
      WorstOfTwo(fs, gs[..n]);
    }
  }

  lemma TargetWorst(p: string, recursive: bool)
    ensures Worst(RmTarget(p, recursive)) ==
            if IsRootLikePath(p) then Critical else if recursive || '*' in p || '?' in p then High else Medium
  {
    hide IsRootLikePath, HasUnmodelledSyntax;
    var fs := RmTarget(p, recursive);
    assert fs[..0] == [];
    assert fs[..1] == [fs[0]] && fs[..1][..0] == [];
    if |fs| == 2 {
      assert Worst(fs[..1]) == fs[0].level;
    }
  }

  lemma {:induction false} TargetsWorst(ops: seq<string>, recursive: bool)
    ensures Worst(RmTargets(ops, recursive)) == TargetsLevel(ops, recursive)
  {
    hide IsRootLikePath, RmTarget, AnyRoot, AnyWildcard;
    AnyOfNone();
    if ops != [] {
      hide Worst;
      var n := |ops| - 1;
      assert ops == ops[..n] + [ops[n]];
      AnyOfLonger(ops[..n], ops[n]);
      TargetsWorst(ops[..n], recursive);
      TargetWorst(ops[n], recursive);
      WorstOfTwo(RmTargets(ops[..n], recursive), RmTarget(ops[n], recursive));
    }
  }

  /** An rm is Low without a target; with one it is as bad as its worst target. */
  lemma RmLevel(a: seq<string>)
    ensures Worst(Rm(a)) == if Operands(a) == [] then Low else TargetsLevel(Operands(a), RmRecursive(a))
  {
    hide IsRootLikePath, RmTargets, Operands, RmRecursive, RmForce;
    var ops := Operands(a);
    TargetsWorst(ops, RmRecursive(a));
    var more := One(ForceAndRecursive, Fixed, High);
    assert more[..0] == [] && Worst(more) == High;
    if ops != [] && RmForce(a) && RmRecursive(a) {
      WorstOfTwo(RmTargets(ops, true), more);
    } else if ops != [] {
      assert RmTargets(ops, RmRecursive(a)) + [] == RmTargets(ops, RmRecursive(a));
    } else {
      var none := One(NoTarget, Fixed, Low);
      assert none[..0] == [] && Worst(none) == Low;
    }
  }

  // ---- the report as it is built up -----------------------------------------------------------------------------

  class RiskReport {
    var level: RiskLevel
    var program: string
    var sudo: bool
    var findings: seq<Finding>
    var why: Why

    ghost function View(): Report
      reads this
    {
      Report(level, program, sudo, findings, why)
    }

    constructor ()
      ensures View() == Report(None, "", false, [], Complete)
    {
      level, program, sudo, findings, why := None, "", false, [], Complete;
    }

    /** Appends a finding and raises the level to it. */
    method Add(f: Finding)
      requires level == Worst(findings)
      modifies this`findings, this`level
      ensures findings == old(findings) + [f] && level == Worst(findings)
    {
      assert (findings + [f])[..|findings|] == findings;
      findings := findings + [f];
      if f.level.Rank() > level.Rank() {
        level := f.level;
      }
    }

    method AddAll(fs: seq<Finding>)
      requires level == Worst(findings)
      modifies this`findings, this`level
      ensures findings == old(findings) + fs && level == Worst(findings)
    {
      for k := 0 to |fs|
        invariant findings == old(findings) + fs[..k] && level == Worst(findings)
      {
        Add(fs[k]);
      }
    }

    method AddTarget(p: string, recursive: bool)
      requires level == Worst(findings)
      modifies this`findings, this`level
      ensures findings == old(findings) + RmTarget(p, recursive) && level == Worst(findings)
    {
      hide IsRootLikePath, HasUnmodelledSyntax, Worst;
      var unsure := HasUnmodelledSyntax(p);
      if IsRootLikePath(p) {
        Add(Finding(if recursive then DeletesRootTree else DeletesRoot, About(p), Critical, unsure));
      } else if recursive {
        Add(Finding(DeletesTree, About(p), High, unsure));
      } else {
        Add(Finding(Deletes, About(p), Medium, unsure));
      }
      if '*' in p || '?' in p {
        Add(Finding(Wildcard, About(p), High, true));
      }
    }

    method AnalyseRm(a: seq<string>)
      requires level == Worst(findings)
      modifies this`findings, this`level
      ensures findings == old(findings) + Rm(a) && level == Worst(findings)
    {
      hide RmTarget, HasShortFlag, HasLongFlag, Worst, Operands;
      var recursive, force := RmRecursive(a), RmForce(a);
      var ops := NonFlags(a);
      if ops == [] {
        Add(Finding(NoTarget, Fixed, Low, false));
        return;
      }
      for k := 0 to |ops|
        invariant findings == old(findings) + RmTargets(ops[..k], recursive) && level == Worst(findings)
      {
        AddTarget(ops[k], recursive);
        assert ops[..k + 1][..k] == ops[..k];
      }
      assert ops[..|ops|] == ops;
      if force && recursive {
        Add(Finding(ForceAndRecursive, Fixed, High, false));
      }
    }

    /** The family's findings, then the extra step for sudo. */
    method Analyse(args: seq<string>, from: nat, command: string)
      requires level == None && findings == [] && from <= |args|
      modifies this`findings, this`level
      ensures View() == Judged(program, sudo, Findings(program, args, from, command), why)
    {
      hide ProgramOf, Worst;
      hide Rm, MvCp, ChmodChown, Systemctl, Docker, Git, Kubectl, PackageTool, DiskDump, Database;
      NoneIsWorst();
      if ProgramOf(program) == Remove {
        AnalyseRm(args[from..]);
      } else {
        AddAll(Findings(program, args, from, command));
      }
      assert findings == Findings(program, args, from, command);
      if sudo && level != None && level != Critical {
        var was := level;
        Add(Finding(RunsAsRoot, Fixed, was, false));
        level := was.Next();
      }
    }
  }

  lemma OperandsStep(args: seq<string>, i: nat)
    requires i < |args|
    ensures args[i..] == [args[i]] + args[i + 1..]
    ensures Operands(args[i..]) == if args[i] == "--" then args[i + 1..]
                                   else if IsFlag(args[i]) then Operands(args[i + 1..])
                                   else [args[i]] + Operands(args[i + 1..])
  {}

  lemma NoOperands()
    ensures Operands([]) == []
  {}

  method NonFlags(args: seq<string>) returns (out: seq<string>)
    ensures out == Operands(args)
  {
    out := [];
    var endOfFlags := false;
    hide Operands, IsFlag;
    assert args[0..] == args && out + Operands(args) == Operands(args);
    for i := 0 to |args|
      invariant Operands(args) == out + if endOfFlags then args[i..] else Operands(args[i..])
    {
      var a := args[i];
      OperandsStep(args, i);
      assert out + ([a] + args[i + 1..]) == out + [a] + args[i + 1..];
      assert out + ([a] + Operands(args[i + 1..])) == out + [a] + Operands(args[i + 1..]);
      if !endOfFlags && a == "--" {
        endOfFlags := true;
      } else if !endOfFlags && IsFlag(a) {
      } else {
        out := out + [a];
      }
    }
    assert args[|args|..] == [];
    NoOperands();
  }

  method AnalyseCommand(command: string) returns (r: RiskReport)
    ensures fresh(r) && r.View() == Analysed(command)
  {
    hide Contains, BaseName, Lower, Split, Unterminated, FirstCommand, SkipPrefix, Findings, Judged;
    r := new RiskReport();
    var all, unterminated := SplitArgs(command);
    if unterminated {
      r.why := UnclosedQuote;
    }
    var args := KeepFirst(all);
    if |args| < |all| {
      r.why := Chained;
    }
    if args == [] {
      return;
    }
    if Contains(command, "$(") || '`' in command {
      r.why := Substitution;
    }
    var i, sudo := FindProgram(args);
    r.sudo := sudo;
    if i >= |args| {
      return;
    }
    r.program := Lower(BaseName(args[i]));
    r.Analyse(args, i + 1, command);
  }

  method FindProgram(args: seq<string>) returns (i: nat, sudo: bool)
    ensures (i, sudo) == SkipPrefix(args, 0, false)
  {
    hide IsSudo, IsPrefix, SkipOptions;
    i, sudo := 0, false;
    while i < |args| && (IsSudo(args[i]) || IsPrefix(args[i]))
      invariant i <= |args| && SkipPrefix(args, i, sudo) == SkipPrefix(args, 0, false)
      decreases |args| - i
    {
      if IsSudo(args[i]) {
        sudo := true;
        i := PastOptions(args, i + 1);
      } else {
        i := i + 1;
      }
    }
  }

  lemma NoneIsWorst()
    ensures Worst([]) == None
  {}

  method KeepFirst(all: seq<string>) returns (args: seq<string>)
    ensures args == FirstCommand(all)
  {
    hide IsChainOp;
    args := all;
    for k := 0 to |all|
      invariant args == all && FirstCommand(all) == all[..k] + FirstCommand(all[k..])
    {
      assert all[k..][1..] == all[k + 1..];
      if IsChainOp(all[k]) {
        return all[..k];
      }
    }
    assert all[..|all|] == all;
  }

  method PastOptions(args: seq<string>, from: nat) returns (i: nat)
    requires from <= |args|
    ensures i == SkipOptions(args, from) && from <= i <= |args|
  {
    i := from;
    while i < |args| && args[i] != "" && args[i][0] == '-'
      invariant from <= i <= |args| && SkipOptions(args, i) == SkipOptions(args, from)
    {
      var takesValue := args[i] in ["-u", "-g", "--user", "--group"];
      i := i + 1;
      if takesValue && i < |args| {
        i := i + 1;
      }
    }
  }
}
