/** The command-line options of the scanner: a root path to search and a
    list of custom view class names. The process arguments and the
    `SRCROOT` environment variable are passed in as plain values. */
module CommandLineOptions {
  import opened Wrappers
  import Text

  datatype Options = Options(rootPath: string, customViewClassNames: seq<string>)

  /** The two spellings of the flag whose following argument lists class names. */
  predicate IsClassNamesFlag(arg: string)
  {
    arg == "-customViewClassNames" || arg == "-customViewClassName"
  }

  /** The values threaded through the argument loop. */
  datatype ParseState = ParseState(rootPath: string, names: seq<string>, expectingNames: bool)

  /** Before any argument: the root path is the environment's, or empty. */
  function Start(defaultRootPath: Option<string>): ParseState
  {
    ParseState(defaultRootPath.GetOr(""), [], false)
  }

  /** One argument after the program name: a pending flag consumes it as a
      comma-separated list of names; otherwise a flag arms the next argument
      and anything else replaces the root path. */
  function Step(st: ParseState, arg: string): ParseState
  {
    if st.expectingNames then ParseState(st.rootPath, st.names + Text.Split(arg, ','), false)
    else if IsClassNamesFlag(arg) then st.(expectingNames := true)
    else st.(rootPath := arg)
  }

  /** The loop over `args`, skipping the program name at index 0. */
  function Run(args: seq<string>, defaultRootPath: Option<string>): ParseState
    decreases |args|
  {
    if |args| <= 1 then Start(defaultRootPath)
    else Step(Run(args[..|args| - 1], defaultRootPath), args[|args| - 1])
  }

  /** The options a process started with `args` ends up with. */
  function Parse(args: seq<string>, defaultRootPath: Option<string>): (opts: Options)
    ensures |args| <= 1 ==> opts == Options(defaultRootPath.GetOr(""), [])
  {
    var st := Run(args, defaultRootPath);
    Options(st.rootPath, st.names)
  }

  /** `createFromCommandLineArguments()`'s loop over the enumerated arguments,
      with its three guards in their order. */
  method CreateFromCommandLineArguments(args: seq<string>, defaultRootPath: Option<string>)
    returns (opts: Options)
    ensures opts == Parse(args, defaultRootPath)
  {
    var rootPath := defaultRootPath.GetOr("");
    var customViewClassNames: seq<string> := [];
    var isCustomViewClassNamesArg := false;
    var index := 0;
    while index < |args|
      invariant 0 <= index <= |args|
      invariant Run(args[..index], defaultRootPath)
                == ParseState(rootPath, customViewClassNames, isCustomViewClassNamesArg)
    {
      var arg := args[index];
      assert args[..index + 1][..index] == args[..index];
      if index > 0 {
        if isCustomViewClassNamesArg {
          customViewClassNames := customViewClassNames + Text.Split(arg, ',');
          isCustomViewClassNamesArg := false;
        } else if IsClassNamesFlag(arg) {
          isCustomViewClassNamesArg := true;
        } else {
          rootPath := arg;
        }
      }
      index := index + 1;
    }
    assert args[..index] == args;
    opts := Options(rootPath, customViewClassNames);
  }

  // ---------------------------------------------------------------------
  // A reference reading of the argument list: the role each argument plays.

  datatype Role = ProgramName | Flag | ClassNameList | RootPath

  /** The rules that fix every argument's role from its predecessor's:
      index 0 is the program name; an argument right after a flag is a
      class-name list whatever its text; otherwise exactly the two flag
      strings are flags and everything else is a root path. */
  predicate WellAssigned(args: seq<string>, roles: seq<Role>)
  {
    && |roles| == |args|
    && (forall i :: 0 <= i < |roles| ==> (roles[i] == ProgramName <==> i == 0))
    && (forall i :: 0 < i < |roles| ==> (roles[i] == ClassNameList <==> roles[i - 1] == Flag))
    && (forall i :: 0 < i < |roles| ==>
          (roles[i] == Flag <==> roles[i - 1] != Flag && IsClassNamesFlag(args[i])))
  }

  function RoleAfter(previous: Role, arg: string): Role
  {
    if previous == Flag then ClassNameList
    else if IsClassNamesFlag(arg) then Flag
    else RootPath
  }

  /** The roles of `args`, assigned left to right. */
  function Roles(args: seq<string>): (roles: seq<Role>)
    ensures WellAssigned(args, roles)
    decreases |args|
  {
    if |args| == 0 then []
    else if |args| == 1 then [ProgramName]
    else
      var previous := Roles(args[..|args| - 1]);
      WellAssignedExtends(args, previous);
      previous + [RoleAfter(previous[|previous| - 1], args[|args| - 1])]
  }

  /** Extending a well-assigned prefix by the role after its last one keeps
      the assignment well formed. */
  lemma WellAssignedExtends(args: seq<string>, previous: seq<Role>)
    requires |args| >= 2 && WellAssigned(args[..|args| - 1], previous)
    ensures WellAssigned(args, previous + [RoleAfter(previous[|previous| - 1], args[|args| - 1])])
  {
    var n := |args| - 1;
    assert |previous| == n;
    var roles := previous + [RoleAfter(previous[n - 1], args[n])];
    assert |roles| == |args|;
    forall i | 0 <= i < |roles|
      ensures roles[i] == ProgramName <==> i == 0
    {
      if i < n { assert roles[i] == previous[i]; }
    }
    forall i | 0 < i < |roles|
      ensures roles[i] == ClassNameList <==> roles[i - 1] == Flag
    {
      assert roles[i - 1] == previous[i - 1];
      if i < n {
        assert roles[i] == previous[i];
      } else {
        assert roles[i] == RoleAfter(previous[n - 1], args[n]);
      }
    }
    forall i | 0 < i < |roles|
      ensures roles[i] == Flag <==> roles[i - 1] != Flag && IsClassNamesFlag(args[i])
    {
      assert roles[i - 1] == previous[i - 1];
      if i < n {
        assert roles[i] == previous[i] && args[i] == args[..n][i];
      } else {
        assert roles[i] == RoleAfter(previous[n - 1], args[n]);
      }
    }
    assert WellAssigned(args, roles);
  }

  /** The rules admit one assignment only, so `Roles` is the assignment. */
  lemma {:induction false} WellAssignedIsUnique(args: seq<string>, roles: seq<Role>, other: seq<Role>)
    requires WellAssigned(args, roles) && WellAssigned(args, other)
    ensures roles == other
  {
    forall n | 0 <= n < |roles|
      ensures roles[n] == other[n]
    {
      SameRoleUpTo(args, roles, other, n);
    }
  }

  lemma {:induction false} SameRoleUpTo(args: seq<string>, roles: seq<Role>, other: seq<Role>, n: nat)
    requires WellAssigned(args, roles) && WellAssigned(args, other)
    requires n < |roles|
    ensures roles[n] == other[n]
    decreases n
  {
    if n > 0 {
      SameRoleUpTo(args, roles, other, n - 1);
      if roles[n] == RootPath {
        assert other[n] != ProgramName && other[n] != ClassNameList && other[n] != Flag;
      }
    }
  }

  /** The arguments that play `role`, in order. */
  function ArgumentsWithRole(args: seq<string>, roles: seq<Role>, role: Role): seq<string>
    requires |roles| == |args|
    decreases |args|
  {
    if |args| == 0 then []
    else
      ArgumentsWithRole(args[..|args| - 1], roles[..|roles| - 1], role)
      + (if roles[|roles| - 1] == role then [args[|args| - 1]] else [])
  }

  /** Every argument picked for `role` is an argument of that role. */
  lemma {:induction false} ArgumentsWithRoleMembers(args: seq<string>, roles: seq<Role>, role: Role)
    requires |roles| == |args|
    ensures forall a :: a in ArgumentsWithRole(args, roles, role) ==>
              exists i :: 0 <= i < |args| && roles[i] == role && args[i] == a
    decreases |args|
  {
    if |args| > 0 {
      var n := |args| - 1;
      ArgumentsWithRoleMembers(args[..n], roles[..n], role);
      forall a | a in ArgumentsWithRole(args, roles, role)
        ensures exists i :: 0 <= i < |args| && roles[i] == role && args[i] == a
      {
        if a in ArgumentsWithRole(args[..n], roles[..n], role) {
          var i :| 0 <= i < n && roles[..n][i] == role && args[..n][i] == a;
          assert roles[i] == role && args[i] == a;
        } else {
          assert roles[n] == role && args[n] == a;
        }
      }
    }
  }

  /** The names contributed by a run of class-name lists: each list split on
      commas, the pieces appended in order. */
  function NamePieces(values: seq<string>): seq<string>
    decreases |values|
  {
    if |values| == 0 then []
    else NamePieces(values[..|values| - 1]) + Text.Split(values[|values| - 1], ',')
  }

  /** The root path a role assignment selects: the last root-path argument,
      or the default when there is none. */
  function LastOr(values: seq<string>, default: string): string
  {
    if |values| == 0 then default else values[|values| - 1]
  }

  /** The loop computes what the roles say: the root path is the last
      root-path argument (else the default), the names are the split class-name
      lists in order, and a value is pending exactly when the last argument is
      a flag. */
  lemma {:induction false} RunFollowsRoles(args: seq<string>, defaultRootPath: Option<string>)
    ensures var roles := Roles(args);
            var st := Run(args, defaultRootPath);
            && st.rootPath == LastOr(ArgumentsWithRole(args, roles, RootPath), defaultRootPath.GetOr(""))
            && st.names == NamePieces(ArgumentsWithRole(args, roles, ClassNameList))
            && (st.expectingNames <==> |args| > 1 && roles[|args| - 1] == Flag)
    decreases |args|
  {
    if |args| == 1 {
      var roles := Roles(args);
      assert roles == [ProgramName];
      ArgumentsWithRoleSnoc(args, roles, RootPath);
      ArgumentsWithRoleSnoc(args, roles, ClassNameList);
      assert ArgumentsWithRole(args[..0], roles[..0], RootPath) == [];
      assert ArgumentsWithRole(args[..0], roles[..0], ClassNameList) == [];
    } else if |args| > 1 {
      var n := |args| - 1;
      var arg := args[n];
      var roles := Roles(args);
      var previous := Roles(args[..n]);
      var st := Run(args[..n], defaultRootPath);
      RunFollowsRoles(args[..n], defaultRootPath);
      RolesSnoc(args);
      assert Run(args, defaultRootPath) == Step(st, arg);
      ArgumentsWithRoleSnoc(args, roles, RootPath);
      ArgumentsWithRoleSnoc(args, roles, ClassNameList);
      StepFollowsRole(st, previous[n - 1], arg,
                      ArgumentsWithRole(args[..n], previous, RootPath),
                      ArgumentsWithRole(args[..n], previous, ClassNameList),
                      defaultRootPath.GetOr(""));
    }
  }

  /** One step of the loop adds exactly what the next argument's role says. */
  lemma StepFollowsRole(st: ParseState, last: Role, arg: string,
                        roots: seq<string>, lists: seq<string>, default: string)
    requires st.rootPath == LastOr(roots, default) && st.names == NamePieces(lists)
    requires st.expectingNames <==> last == Flag
    ensures var role := RoleAfter(last, arg);
            var next := Step(st, arg);
            && next.rootPath == LastOr(roots + (if role == RootPath then [arg] else []), default)
            && next.names == NamePieces(lists + (if role == ClassNameList then [arg] else []))
            && (next.expectingNames <==> role == Flag)
  {
    var role := RoleAfter(last, arg);
    if role == ClassNameList {
      NamePiecesSnoc(lists, arg);
      assert roots + [] == roots;
    } else if role == RootPath {
      assert lists + [] == lists;
    } else {
      assert roots + [] == roots;
      assert lists + [] == lists;
    }
  }

  /** The roles of a longer list extend those of its prefix by one. */
  lemma RolesSnoc(args: seq<string>)
    requires |args| >= 2
    ensures var previous := Roles(args[..|args| - 1]);
            && |previous| == |args| - 1
            && Roles(args)[..|args| - 1] == previous
            && Roles(args)[|args| - 1] == RoleAfter(previous[|args| - 2], args[|args| - 1])
  {
  }

  /** Picking the arguments of a role from a longer list appends at most the last one. */
  lemma ArgumentsWithRoleSnoc(args: seq<string>, roles: seq<Role>, role: Role)
    requires |roles| == |args| >= 1
    ensures var n := |args| - 1;
            ArgumentsWithRole(args, roles, role)
            == ArgumentsWithRole(args[..n], roles[..n], role) + (if roles[n] == role then [args[n]] else [])
  {
  }

  /** One more class-name list appends its comma-split pieces. */
  lemma NamePiecesSnoc(values: seq<string>, value: string)
    ensures NamePieces(values + [value]) == NamePieces(values) + Text.Split(value, ',')
  {
    assert (values + [value])[..|values|] == values;
  }

  /** The parsed options, stated through the roles. */
  lemma ParseFollowsRoles(args: seq<string>, defaultRootPath: Option<string>)
    ensures var roles := Roles(args);
            var opts := Parse(args, defaultRootPath);
            && opts.rootPath == LastOr(ArgumentsWithRole(args, roles, RootPath), defaultRootPath.GetOr(""))
            && opts.customViewClassNames == NamePieces(ArgumentsWithRole(args, roles, ClassNameList))
  {
    RunFollowsRoles(args, defaultRootPath);
  }

  /** A flag string never becomes the root path unless it already was the default. */
  lemma FlagIsNeverRootPath(args: seq<string>, defaultRootPath: Option<string>)
    ensures var opts := Parse(args, defaultRootPath);
            IsClassNamesFlag(opts.rootPath) ==> opts.rootPath == defaultRootPath.GetOr("")
  {
    var roles := Roles(args);
    var roots := ArgumentsWithRole(args, roles, RootPath);
    ParseFollowsRoles(args, defaultRootPath);
    ArgumentsWithRoleMembers(args, roles, RootPath);
    if |roots| > 0 {
      assert roots[|roots| - 1] in roots;
      var i :| 0 <= i < |args| && roles[i] == RootPath && args[i] == roots[|roots| - 1];
      assert i > 0 && roles[i - 1] != Flag;
      assert !IsClassNamesFlag(args[i]);
    }
  }

  /** The program name at index 0 never influences the result. */
  lemma {:induction false} ProgramNameIgnored(args: seq<string>, other: string, defaultRootPath: Option<string>)
    requires |args| >= 1
    ensures Parse([other] + args[1..], defaultRootPath) == Parse(args, defaultRootPath)
  {
    SameTailSameRun(args, [other] + args[1..], defaultRootPath);
  }

  lemma {:induction false} SameTailSameRun(args: seq<string>, other: seq<string>, defaultRootPath: Option<string>)
    requires |args| == |other| >= 1 && args[1..] == other[1..]
    ensures Run(args, defaultRootPath) == Run(other, defaultRootPath)
    decreases |args|
  {
    if |args| > 1 {
      var n := |args| - 1;
      assert args[n] == args[1..][n - 1] == other[n];
      assert args[..n][1..] == args[1..][..n - 1];
      assert other[..n][1..] == other[1..][..n - 1];
      SameTailSameRun(args[..n], other[..n], defaultRootPath);
    }
  }

  /** The value after a flag is consumed whatever its text, even another flag
      or the empty string, and its comma-split pieces are appended. */
  lemma ValueAfterFlagIsConsumed(args: seq<string>, flag: string, value: string, defaultRootPath: Option<string>)
    requires |args| >= 1 && IsClassNamesFlag(flag)
    requires !Run(args, defaultRootPath).expectingNames
    ensures var before := Parse(args, defaultRootPath);
            Parse(args + [flag, value], defaultRootPath)
            == Options(before.rootPath, before.customViewClassNames + Text.Split(value, ','))
  {
    var withFlag := args + [flag];
    var all := args + [flag, value];
    assert all[..|all| - 1] == withFlag && all[|all| - 1] == value;
    assert withFlag[..|withFlag| - 1] == args && withFlag[|withFlag| - 1] == flag;
    assert Run(withFlag, defaultRootPath) == Step(Run(args, defaultRootPath), flag);
    assert Run(all, defaultRootPath) == Step(Run(withFlag, defaultRootPath), value);
  }

  /** A flag at the very end contributes nothing. */
  lemma TrailingFlagContributesNothing(args: seq<string>, flag: string, defaultRootPath: Option<string>)
    requires |args| >= 1 && IsClassNamesFlag(flag)
    requires !Run(args, defaultRootPath).expectingNames
    ensures Parse(args + [flag], defaultRootPath) == Parse(args, defaultRootPath)
  {
    assert (args + [flag])[..|args|] == args;
  }
}
