/** What the command risk analyser makes of flags, paths and statements (src/security/BlastRadius.cpp): the rules its
  * families share, stated of what is written rather than of how it is looked for.
  */
module RiskRules {
  import opened ShellSplit
  import opened BlastRadius

  // ---- flags ----------------------------------------------------------------------------------------------------

  /** Two argument lists that no family can tell apart. */
  ghost predicate SameArguments(a: seq<string>, b: seq<string>) {
    && Operands(a) == Operands(b)
    && (forall f :: HasShortFlag(a, f) == HasShortFlag(b, f))
    && (forall f: string :: "--" <= f ==> HasLongFlag(a, f) == HasLongFlag(b, f))
  }

  /** The findings of a program read by its arguments depend on nothing else; dd reads its operands word by word. */
  lemma FindingsFollowTheArguments(prog: string, args: seq<string>, from: nat, args': seq<string>, from': nat,
                                   command: string, command': string)
    requires from <= |args| && from' <= |args'| && SameArguments(args[from..], args'[from'..])
    requires ProgramOf(prog) != Other && ProgramOf(prog) != Dump
    ensures Findings(prog, args, from, command) == Findings(prog, args', from', command')
  {
    hide Rm, MvCp, ChmodChown, Systemctl, Docker, Git, Kubectl, PackageTool, ProgramOf, SameArguments;
    var a, b := args[from..], args'[from'..];
    FileFamilies(a, b, true);
    FileFamilies(a, b, false);
    ServiceFamilies(prog, a, b);
    GitFamily(a, b);
  }

  lemma FileFamilies(a: seq<string>, b: seq<string>, other: bool)
    requires SameArguments(a, b)
    ensures Rm(a) == Rm(b) && MvCp(a, other) == MvCp(b, other) && ChmodChown(a, other) == ChmodChown(b, other)
  {
    hide Operands, HasShortFlag, HasLongFlag, Rm, MvCp, ChmodChown;
    assert "--" <= "--recursive" && "--" <= "--force" && "--" <= "--no-clobber";
    RmFamily(a, b);
    MoveFamily(a, b, other);
    OwnFamily(a, b, other);
  }

  lemma RmFamily(a: seq<string>, b: seq<string>)
    requires Operands(a) == Operands(b) && forall f :: HasShortFlag(a, f) == HasShortFlag(b, f)
    requires HasLongFlag(a, "--recursive") == HasLongFlag(b, "--recursive")
    requires HasLongFlag(a, "--force") == HasLongFlag(b, "--force")
    ensures Rm(a) == Rm(b)
  {
    hide Operands, HasShortFlag, HasLongFlag, RmTargets;
  }

  lemma MoveFamily(a: seq<string>, b: seq<string>, move: bool)
    requires Operands(a) == Operands(b) && HasShortFlag(a, 'n') == HasShortFlag(b, 'n')
    requires HasLongFlag(a, "--no-clobber") == HasLongFlag(b, "--no-clobber")
    ensures MvCp(a, move) == MvCp(b, move)
  {
    hide Operands, HasShortFlag, HasLongFlag, MovedAway, IsRootLikePath, HasUnmodelledSyntax;
  }

  lemma OwnFamily(a: seq<string>, b: seq<string>, own: bool)
    requires Operands(a) == Operands(b) && HasShortFlag(a, 'R') == HasShortFlag(b, 'R')
    requires HasLongFlag(a, "--recursive") == HasLongFlag(b, "--recursive")
    ensures ChmodChown(a, own) == ChmodChown(b, own)
  {
    hide Operands, HasShortFlag, HasLongFlag, Owned;
  }

  lemma ServiceFamilies(prog: string, a: seq<string>, b: seq<string>)
    requires SameArguments(a, b)
    ensures Systemctl(a) == Systemctl(b) && Docker(a) == Docker(b) && Kubectl(a) == Kubectl(b)
    ensures PackageTool(prog, a) == PackageTool(prog, b)
  {
    hide Systemctl, Docker, Kubectl, PackageTool, Operands, HasShortFlag, HasLongFlag;
    assert "--" <= "--volumes" && "--" <= "--all-namespaces" && "--" <= "--all";
    OperandFamilies(prog, a, b);
    DockerFamily(a, b);
    KubectlFamily(a, b);
  }

  lemma OperandFamilies(prog: string, a: seq<string>, b: seq<string>)
    requires Operands(a) == Operands(b)
    ensures Systemctl(a) == Systemctl(b) && PackageTool(prog, a) == PackageTool(prog, b)
  {
    hide Operands, Lower;
  }

  lemma DockerFamily(a: seq<string>, b: seq<string>)
    requires Operands(a) == Operands(b) && HasShortFlag(a, 'v') == HasShortFlag(b, 'v')
    requires HasLongFlag(a, "--volumes") == HasLongFlag(b, "--volumes")
    ensures Docker(a) == Docker(b)
  {
    hide Operands, HasShortFlag, HasLongFlag, Lower;
  }

  lemma KubectlFamily(a: seq<string>, b: seq<string>)
    requires Operands(a) == Operands(b) && HasShortFlag(a, 'A') == HasShortFlag(b, 'A')
    requires HasLongFlag(a, "--all-namespaces") == HasLongFlag(b, "--all-namespaces")
    requires HasLongFlag(a, "--all") == HasLongFlag(b, "--all")
    ensures Kubectl(a) == Kubectl(b)
  {
    hide Operands, HasShortFlag, HasLongFlag, Lower;
  }

  lemma GitFamily(a: seq<string>, b: seq<string>)
    requires SameArguments(a, b)
    ensures Git(a) == Git(b)
  {
    hide Git, Operands, HasShortFlag, HasLongFlag;
    assert "--" <= "--hard" && "--" <= "--force-with-lease" && "--" <= "--force" && "--" <= "--delete";
    CleanAndPush(a, b);
    GitVerbs(a, b);
  }

  lemma CleanAndPush(a: seq<string>, b: seq<string>)
    requires forall f :: HasShortFlag(a, f) == HasShortFlag(b, f)
    requires HasLongFlag(a, "--force-with-lease") == HasLongFlag(b, "--force-with-lease")
    requires HasLongFlag(a, "--force") == HasLongFlag(b, "--force")
    requires HasLongFlag(a, "--delete") == HasLongFlag(b, "--delete")
    ensures GitClean(a) == GitClean(b) && GitPush(a) == GitPush(b)
  {
    hide HasShortFlag, HasLongFlag;
  }

  lemma GitVerbs(a: seq<string>, b: seq<string>)
    requires Operands(a) == Operands(b) && GitClean(a) == GitClean(b) && GitPush(a) == GitPush(b)
    requires HasShortFlag(a, 'D') == HasShortFlag(b, 'D') && HasShortFlag(a, 'f') == HasShortFlag(b, 'f')
    requires HasLongFlag(a, "--hard") == HasLongFlag(b, "--hard")
    requires HasLongFlag(a, "--delete") == HasLongFlag(b, "--delete")
    requires HasLongFlag(a, "--force") == HasLongFlag(b, "--force")
    ensures Git(a) == Git(b)
  {
    hide Operands, HasShortFlag, HasLongFlag, Lower, GitClean, GitPush;
  }

  lemma {:induction false} OperandsConcat(a: seq<string>, b: seq<string>)
    requires "--" !in a
    ensures Operands(a + b) == Operands(a) + Operands(b)
  {
    hide IsFlag;
    if a == [] {
      assert a + b == b;
    } else {
      assert (a + b)[1..] == a[1..] + b;
      OperandsConcat(a[1..], b);
    }
  }

  lemma ShortFlagIn(args: seq<string>, f: char)
    ensures HasShortFlag(args, f) <==>
            exists w :: w in args && 2 <= |w| && w[0] == '-' && w[1] != '-' && f in w[1..]
  {
    if w :| w in args && 2 <= |w| && w[0] == '-' && w[1] != '-' && f in w[1..] {
      var i :| 0 <= i < |args| && args[i] == w;
    }
  }

  lemma ShortFlagConcat(a: seq<string>, b: seq<string>, f: char)
    ensures HasShortFlag(a + b, f) <==> HasShortFlag(a, f) || HasShortFlag(b, f)
  {
    hide HasShortFlag;
    ShortFlagIn(a + b, f);
    ShortFlagIn(a, f);
    ShortFlagIn(b, f);
  }

  lemma OneShortFlag(letters: string, f: char)
    requires letters != "" && letters[0] != '-'
    ensures HasShortFlag(["-" + letters], f) <==> f in letters
    ensures Operands(["-" + letters]) == []
    ensures forall g: string :: "--" <= g ==> !HasLongFlag(["-" + letters], g)
  {
    var w := "-" + letters;
    assert w[1..] == letters && w != "--" && IsFlag(w);
    NoOperand(w);
    ShortFlagIn([w], f);
    assert w[1] == letters[0] && !("--" <= w);
  }

  lemma LongFlagConcat(a: seq<string>, b: seq<string>, f: string)
    ensures HasLongFlag(a + b, f) <==> HasLongFlag(a, f) || HasLongFlag(b, f)
  {}

  ghost predicate Letters(s: string) {
    s != "" && s[0] != '-'
  }

  /** Short flags may be written together or apart: `-rf` is `-r -f`. */
  lemma FlagsMayBeJoined(x: seq<string>, p: string, q: string, y: seq<string>)
    requires "--" !in x && Letters(p) && Letters(q)
    ensures SameArguments(x + ["-" + (p + q)] + y, x + (["-" + p] + ["-" + q]) + y)
  {
    hide Operands, HasShortFlag, HasLongFlag, IsFlag;
    var one, two := ["-" + (p + q)], ["-" + p] + ["-" + q];
    NotTheEnd(p + q);
    NotTheEnd(p);
    NotTheEnd(q);
    Middle(x, one, y);
    Middle(x, two, y);
    OperandsConcat(["-" + p], ["-" + q]);
    forall f
      ensures HasShortFlag(one, f) == HasShortFlag(two, f)
    {
      OneShortFlag(p + q, f);
      OneShortFlag(p, f);
      OneShortFlag(q, f);
      ShortFlagConcat(["-" + p], ["-" + q], f);
    }
    forall f: string | "--" <= f
      ensures HasLongFlag(one, f) == HasLongFlag(two, f)
    {
      OneShortFlag(p + q, 'x');
      OneShortFlag(p, 'x');
      OneShortFlag(q, 'x');
      LongFlagConcat(["-" + p], ["-" + q], f);
    }
    OneShortFlag(p + q, 'x');
    OneShortFlag(p, 'x');
    OneShortFlag(q, 'x');
    SameInTheMiddle(x, one, two, y);
  }

  lemma NotTheEnd(letters: string)
    requires Letters(letters)
    ensures "--" !in ["-" + letters]
  {
    assert ("-" + letters)[1] == letters[0];
  }

  lemma Middle(x: seq<string>, m: seq<string>, y: seq<string>)
    requires "--" !in x && "--" !in m
    ensures Operands(x + m + y) == Operands(x) + Operands(m) + Operands(y)
  {
    hide Operands;
    OperandsConcat(x + m, y);
    OperandsConcat(x, m);
  }

  lemma SameInTheMiddle(x: seq<string>, m: seq<string>, n: seq<string>, y: seq<string>)
    requires "--" !in x && "--" !in m && "--" !in n && Operands(m) == Operands(n)
    requires forall f :: HasShortFlag(m, f) == HasShortFlag(n, f)
    requires forall f: string :: "--" <= f ==> HasLongFlag(m, f) == HasLongFlag(n, f)
    ensures SameArguments(x + m + y, x + n + y)
  {
    hide Operands, HasShortFlag, HasLongFlag;
    Middle(x, m, y);
    Middle(x, n, y);
    forall f
      ensures HasShortFlag(x + m + y, f) == HasShortFlag(x + n + y, f)
    {
      ShortFlagConcat(x + m, y, f);
      ShortFlagConcat(x, m, f);
      ShortFlagConcat(x + n, y, f);
      ShortFlagConcat(x, n, f);
    }
    forall f: string | "--" <= f
      ensures HasLongFlag(x + m + y, f) == HasLongFlag(x + n + y, f)
    {
      LongFlagConcat(x + m, y, f);
      LongFlagConcat(x, m, f);
      LongFlagConcat(x + n, y, f);
      LongFlagConcat(x, n, f);
    }
  }

  /** A flag may stand before or after the words beside it, up to "--". */
  lemma FlagsMayMove(x: seq<string>, flag: string, y: seq<string>, z: seq<string>)
    requires "--" !in x + y && IsFlag(flag) && flag != "--"
    ensures SameArguments(x + ([flag] + y) + z, x + (y + [flag]) + z)
  {
    hide HasShortFlag, HasLongFlag, IsFlag;
    OperandsConcat([flag], y);
    OperandsConcat(y, [flag]);
    hide Operands;
    NoOperand(flag);
    forall f
      ensures HasShortFlag([flag] + y, f) == HasShortFlag(y + [flag], f)
    {
      ShortFlagConcat([flag], y, f);
      ShortFlagConcat(y, [flag], f);
    }
    forall f: string | "--" <= f
      ensures HasLongFlag([flag] + y, f) == HasLongFlag(y + [flag], f)
    {
      LongFlagConcat([flag], y, f);
      LongFlagConcat(y, [flag], f);
    }
    SameInTheMiddle(x, [flag] + y, y + [flag], z);
  }

  lemma NoOperand(flag: string)
    requires IsFlag(flag) && flag != "--"
    ensures Operands([flag]) == []
  {
    var words := [flag];
    assert words[1..] == [] && Operands(words[1..]) == [];
  }

  // ---- what a shell would expand --------------------------------------------------------------------------------

  /** A finding is uncertain about a word exactly when it holds a dollar sign or a backquote. */
  lemma UnsureIff(token: string)
    ensures HasUnmodelledSyntax(token) <==> '$' in token || '`' in token
  {
    HoldsItsStart(token, "$(");
    HoldsItsStart(token, "${");
  }

  lemma {:induction false} HoldsItsStart(s: string, t: string)
    requires t != ""
    ensures Contains(s, t) ==> t[0] in s
  {
    if t <= s {
      assert s[0] == t[0];
    } else if s != "" {
      HoldsItsStart(s[1..], t);
    }
  }

  // ---- paths ----------------------------------------------------------------------------------------------------

  function Climb(k: nat): string {
    if k == 0 then "" else "../" + Climb(k - 1)
  }

  lemma {:induction false} UpsOfClimb(k: nat, rest: string)
    ensures k <= Ups(Climb(k) + rest)
    decreases k
  {
    if k > 0 {
      var p := Climb(k) + rest;
      var q := Climb(k - 1) + rest;
      assert p == "../" + q;
      assert p[1..] == "./" + q && p[1..][1..] == "/" + q && p[1..][1..][1..] == q;
      assert Ups("/" + q) == Ups(q);
      assert Ups("./" + q) == Ups("/" + q);
      UpsOfClimb(k - 1, rest);
    }
  }

  /** A path that climbs four levels is taken for a root wherever it then goes. */
  lemma ClimbingOutIsRoot(k: nat, rest: string)
    requires 4 <= k && rest != "" && rest[|rest| - 1] != '/' && rest[|rest| - 1] != '\\'
    ensures IsRootLikePath(Climb(k) + rest)
  {
    hide Ups, StripSlashes;
    UpsOfClimb(k, rest);
    NothingStripped(Climb(k) + rest);
  }

  function Dots(k: nat): string {
    if k == 0 then "" else "." + Dots(k - 1)
  }

  lemma {:induction false} UpsOfDots(k: nat)
    ensures |Dots(k)| == k && Ups(Dots(k)) == if k == 0 then 0 else k - 1
  {
    if k > 0 {
      UpsOfDots(k - 1);
      assert Dots(k)[1..] == Dots(k - 1);
      assert 2 <= k ==> Dots(k)[1] == Dots(k - 1)[0] == '.';
    }
  }

  /** But it is pairs of dots that are counted, not levels: five dots in a row, which climb nowhere, count as four. */
  lemma FiveDotsAreRoot(name: string)
    ensures IsRootLikePath(name + Dots(5))
  {
    hide Ups, StripSlashes;
    UpsOfDots(5);
    UpsGrow(name, Dots(5));
    var p := name + Dots(5);
    assert Dots(5) == "....." && p[|p| - 1] == '.';
    NothingStripped(p);
  }

  lemma {:induction false} UpsGrow(a: string, b: string)
    ensures Ups(b) <= Ups(a + b)
  {
    if a == "" {
      assert a + b == b;
    } else {
      assert (a + b)[1..] == a[1..] + b;
      UpsGrow(a[1..], b);
    }
  }

  lemma NothingStripped(p: string)
    requires p != "" && p[|p| - 1] != '/' && p[|p| - 1] != '\\'
    ensures StripSlashes(p) == p
  {}

  /** A name without a slash, dot, colon, star or tilde is no root. */
  lemma PlainNameIsNoRoot(p: string)
    requires forall c :: c in p ==> c != '/' && c != '\\' && c != '.' && c != ':' && c != '*' && c != '~'
    ensures !IsRootLikePath(p)
  {
    hide Ups, StripSlashes, Lower;
    if p != "" {
      assert p[|p| - 1] in p && p[0] in p && (2 <= |p| ==> p[1] in p);
      NothingStripped(p);
      NoUps(p);
      LowerKeepsSlashes(p);
      assert forall s :: s in SYSTEM_PATHS ==> s[0] == '/';
    }
  }

  lemma {:induction false} NoUps(p: string)
    requires '.' !in p
    ensures Ups(p) == 0
  {
    if 2 <= |p| {
      NoUps(p[1..]);
    }
  }

  lemma LowerKeepsSlashes(p: string)
    requires p != "" && '/' !in p
    ensures Lower(p) != "" && Lower(p)[0] != '/'
  {
    assert Lower(p)[0] == LowerChar(p[0]);
  }

  /** The system directories are roots in either case of letters, and what is inside one by its plain name is not. */
  lemma SystemPathIsRoot(p: string, name: string)
    requires p in SYSTEM_PATHS
    requires name != "" && forall c :: c in name ==> c != '/' && c != '\\' && c != '.' && c != ':'
    ensures IsRootLikePath(p) && !IsRootLikePath(p + "/" + name)
  {
    hide Ups, StripSlashes, Lower;
    var q := p + "/" + name;
    SystemPathForm(p);
    NothingStripped(p);
    assert q[|q| - 1] == name[|name| - 1] && name[|name| - 1] in name;
    NothingStripped(q);
    assert '.' !in q;
    NoUps(q);
    LowerPath(p, name);
  }

  lemma SystemPathForm(p: string)
    requires p in SYSTEM_PATHS
    ensures 4 <= |p| <= 6 && p[0] == '/' && '.' !in p && Lower(p) == p
    ensures forall i :: 1 <= i < |p| ==> p[i] != '/' && p[i] != '\\'
  {
    hide Lower;
    SystemPathLetters(p);
    LowerKeepsLower(p);
  }

  lemma SystemPathLetters(p: string)
    requires p in SYSTEM_PATHS
    ensures 4 <= |p| <= 6 && p[0] == '/' && forall i :: 1 <= i < |p| ==> '0' <= p[i] <= '9' || 'a' <= p[i] <= 'z'
  {}

  lemma LowerKeepsLower(p: string)
    requires forall c :: c in p ==> !('A' <= c <= 'Z')
    ensures Lower(p) == p
  {
    forall i | 0 <= i < |p|
      ensures Lower(p)[i] == p[i]
    {
      assert p[i] in p;
    }
  }

  lemma LowerPath(p: string, name: string)
    requires p in SYSTEM_PATHS
    ensures Lower(p + "/" + name) !in SYSTEM_PATHS
  {
    SystemPathForm(p);
    var low := Lower(p + "/" + name);
    assert low[|p|] == '/' && low[1..][|p| - 1] == '/';
    if low in SYSTEM_PATHS {
      SystemPathForm(low);
    }
  }

  // ---- roots among the operands ---------------------------------------------------------------------------------

  lemma OneLevel(what: What, detail: Detail, level: RiskLevel, unsure: bool)
    ensures Worst([Finding(what, detail, level, unsure)]) == level
  {
    var fs := [Finding(what, detail, level, unsure)];
    assert fs[..0] == [];
  }

  lemma {:induction false} MovedAwayWorst(ops: seq<string>)
    ensures Worst(MovedAway(ops)) == if AnyRoot(ops) then Critical else None
  {
    hide IsRootLikePath, AnyRoot;
    AnyOfNone();
    if ops != [] {
      var n := |ops| - 1;
      assert ops == ops[..n] + [ops[n]];
      AnyOfLonger(ops[..n], ops[n]);
      MovedAwayWorst(ops[..n]);
      OneLevel(MovesRootAway, About(ops[n]), Critical, false);
      WorstOfTwo(MovedAway(ops[..n]),
                 if IsRootLikePath(ops[n]) then One(MovesRootAway, About(ops[n]), Critical) else []);
    }
  }

  /** A move is Critical exactly when something with a root among it is moved, or moved onto one; a copy exactly when it
    * is copied onto one. */
  lemma MoveIsCriticalIff(a: seq<string>)
    ensures var ops := Operands(a);
      && (Worst(MvCp(a, true)) == Critical <==> 2 <= |ops| && AnyRoot(ops))
      && (Worst(MvCp(a, false)) == Critical <==> 2 <= |ops| && IsRootLikePath(ops[|ops| - 1]))
  {
    hide IsRootLikePath, AnyRoot, Operands, HasShortFlag, HasLongFlag, HasUnmodelledSyntax, MovedAway, Worst;
    var ops := Operands(a);
    NoFindings();
    if 2 <= |ops| {
      var n := |ops| - 1;
      assert ops == ops[..n] + [ops[n]];
      AnyOfLonger(ops[..n], ops[n]);
      MovedAwayWorst(ops[..n]);
      var unsure := HasUnmodelledSyntax(ops[n]);
      forall move
        ensures Worst(MvCp(a, move)) == Critical <==> IsRootLikePath(ops[n]) || (move && AnyRoot(ops[..n]))
      {
        var dest := if IsRootLikePath(ops[n]) then
                      [Finding(if move then MovesOntoRoot else CopiesOntoRoot, About(ops[n]), Critical, unsure)]
                    else if !(HasShortFlag(a, 'n') || HasLongFlag(a, "--no-clobber")) then
                      [Finding(if move then MovesOver else CopiesOver, About(ops[n]), Medium, unsure)]
                    else [];
        OneLevel(if move then MovesOntoRoot else CopiesOntoRoot, About(ops[n]), Critical, unsure);
        OneLevel(if move then MovesOver else CopiesOver, About(ops[n]), Medium, unsure);
        WorstOfTwo(dest, if move then MovedAway(ops[..n]) else []);
      }
    }
  }

  lemma NoFindings()
    ensures Worst([]) == None
  {}

  lemma {:induction false} OwnedWorst(ops: seq<string>, recursive: bool, own: bool)
    ensures Worst(Owned(ops, recursive, own)) == Critical <==> 1 < |ops| && AnyRoot(ops[1..])
  {
    hide IsRootLikePath, AnyRoot, HasUnmodelledSyntax, Worst;
    NoFindings();
    AnyOfNone();
    if 1 < |ops| {
      var n := |ops| - 1;
      var p, unsure := ops[n], HasUnmodelledSyntax(ops[n]);
      assert ops[1..] == ops[..n][1..] + [p];
      AnyOfLonger(ops[..n][1..], p);
      assert n == 1 ==> ops[..n][1..] == [];
      OwnedWorst(ops[..n], recursive, own);
      var last := if IsRootLikePath(p) then [Finding(if own then OwnsRoot else ModesRoot, About(p), Critical, unsure)]
                  else if recursive then [Finding(if own then OwnsTree else ModesTree, About(p), High, unsure)]
                  else [];
      OneLevel(if own then OwnsRoot else ModesRoot, About(p), Critical, unsure);
      OneLevel(if own then OwnsTree else ModesTree, About(p), High, unsure);
      WorstOfTwo(Owned(ops[..n], recursive, own), last);
    }
  }

  /** chmod and chown are Critical exactly when a root is among the files, which follow the mode or the owner. */
  lemma OwnIsCriticalIff(a: seq<string>, own: bool)
    ensures Worst(ChmodChown(a, own)) == Critical <==> 1 < |Operands(a)| && AnyRoot(Operands(a)[1..])
  {
    hide IsRootLikePath, AnyRoot, Operands, HasShortFlag, HasLongFlag, Owned, Worst;
    var ops := Operands(a);
    var recursive := HasShortFlag(a, 'R') || HasLongFlag(a, "--recursive");
    NoFindings();
    OwnedWorst(ops, recursive, own);
    var world := if !own && ops != [] && (ops[0] == "777" || ops[0] == "0777") then
                   One(WorldWritable, About(ops[0]), High) else [];
    if world != [] {
      OneLevel(WorldWritable, About(ops[0]), High, false);
    }
    WorstOfTwo(Owned(ops, recursive, own), world);
  }

  // ---- statements -----------------------------------------------------------------------------------------------

  /** A statement that deletes or updates rows is Critical exactly when the line has no WHERE. */
  lemma RowsAreCriticalIff(command: string)
    ensures var found := Database(command);
      found != [] && found[0].what in {DeletesRows, UpdatesRows, DeletesAllRows, UpdatesAllRows} ==>
        (found[0].level == Critical <==> !Contains(Lower(command), " where "))
  {
    hide Contains, Lower, FirstPattern;
    FoundIs(Lower(command), PATTERNS);
  }

  lemma {:induction false} FoundIs(low: string, pats: seq<Pattern>)
    ensures FirstPattern(low, pats) != [] ==>
              exists p :: p in pats && FirstPattern(low, pats) ==
                if p.everyRow && !Contains(low, " where ") then One(p.whatAll, About(p.text), Critical)
                else One(p.what, About(p.text), p.level)
  {
    hide Contains;
    if pats != [] {
      FoundIs(low, pats[1..]);
      assert pats[0] in pats;
    }
  }

  // ---- what the report admits -----------------------------------------------------------------------------------

  lemma {:induction false} StopsIff(args: seq<string>)
    ensures |FirstCommand(args)| < |args| <==> exists w :: w in args && IsChainOp(w)
    ensures |FirstCommand(args)| <= |args|
  {
    hide IsChainOp;
    if args != [] {
      StopsIff(args[1..]);
      assert args == [args[0]] + args[1..];
    }
  }

  /** A report claims to be complete exactly when the line has no chain operator among its words, no unclosed quote,
    * and, if there is any word before such an operator, no substitution. */
  lemma CompleteIff(command: string)
    ensures Analysed(command).why == Complete <==>
            && (forall w :: w in Split(command) ==> !IsChainOp(w))
            && !Unterminated(command)
            && (Split(command) == [] || (!Contains(command, "$(") && '`' !in command))
  {
    hide Split, Unterminated, Contains, SkipPrefix, Findings, BaseName, Lower, IsChainOp, Worst;
    var all := Split(command);
    StopsIff(all);
    if all != [] && FirstCommand(all) == [] {
      assert IsChainOp(all[0]) && all[0] in all;
    }
  }
}
