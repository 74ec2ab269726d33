/**
  Command lines with plugins (tsArgsWithPlugins.cpp): the arguments are split between
  the command and the input, processor and output plugins.
 */
module PluginArguments {

  datatype PluginType = Input | Processor | Output

  datatype PluginOptions = PluginOptions(kind: PluginType, name: string, args: seq<string>)

  datatype Option<T> = None | Some(value: T)

  // The type of plugin that an argument introduces.
  function Marker(arg: string): Option<PluginType> {
    if arg == "-I" || arg == "--input" then Some(Input)
    else if arg == "-O" || arg == "--output" then Some(Output)
    else if arg == "-P" || arg == "--processor" then Some(Processor)
    else None
  }

  predicate IsMarker(arg: string) {
    Marker(arg).Some?
  }

  // ----- What command lines are made of -----

  // A plugin on the command line, with the argument that introduces it.
  datatype Group = Group(marker: string, name: string, args: seq<string>)

  predicate ValidGroup(g: Group) {
    IsMarker(g.marker) && forall a :: a in g.args ==> !IsMarker(a)
  }

  predicate ValidGroups(groups: seq<Group>) {
    forall g :: g in groups ==> ValidGroup(g)
  }

  function GroupArguments(groups: seq<Group>): seq<string> {
    if groups == [] then [] else [groups[0].marker, groups[0].name] + groups[0].args + GroupArguments(groups[1..])
  }

  function OptionsOf(g: Group): PluginOptions
    requires ValidGroup(g)
  {
    PluginOptions(Marker(g.marker).value, g.name, g.args)
  }

  // The plugins of one type, in the order of the command line.
  function OfType(groups: seq<Group>, kind: PluginType): seq<PluginOptions>
    requires ValidGroups(groups)
  {
    if groups == [] then []
    else
      var last := groups[|groups| - 1];
      assert ValidGroup(last);
      OfType(groups[..|groups| - 1], kind) + (if Marker(last.marker).value == kind then [OptionsOf(last)] else [])
  }

  // The plugins of one type are those of the groups that have this type, in order: the
  // result gives the index of the group of each one.
  lemma {:induction false} OfTypeInOrder(groups: seq<Group>, kind: PluginType) returns (places: seq<nat>)
    requires ValidGroups(groups)
    ensures |places| == |OfType(groups, kind)| && forall i, j :: 0 <= i < j < |places| ==> places[i] < places[j]
    ensures forall i :: 0 <= i < |places| ==>
              && places[i] < |groups| && ValidGroup(groups[places[i]]) && Marker(groups[places[i]].marker) == Some(kind)
              && OfType(groups, kind)[i]
                 == PluginOptions(kind, groups[places[i]].name, groups[places[i]].args)
    ensures forall n :: 0 <= n < |groups| && Marker(groups[n].marker) == Some(kind) ==> n in places
  {
    hide Marker;
    if groups == [] {
      places := [];
    } else {
      var n := |groups| - 1;
      places := OfTypeInOrder(groups[..n], kind);
      assert groups[n] in groups && ValidGroup(groups[n]);
      if Marker(groups[n].marker) == Some(kind) {
        places := places + [n];
      }
    }
  }

  // The arguments of the command, the plugins, and maybe a last marker without a name.
  ghost predicate IsSplit(args: seq<string>, command: seq<string>, groups: seq<Group>, dangling: seq<string>) {
    && args == command + GroupArguments(groups) + dangling
    && (forall a :: a in command ==> !IsMarker(a)) && ValidGroups(groups)
    && |dangling| <= 1 && forall a :: a in dangling ==> IsMarker(a)
  }

  // The index of the first marker from some index on, or the length.
  function NextMarker(args: seq<string>, index: nat): (i: nat)
    requires index <= |args|
    ensures index <= i <= |args| && (i < |args| ==> IsMarker(args[i]))
    ensures forall k :: index <= k < i ==> !IsMarker(args[k])
    decreases |args| - index
  {
    if index == |args| || IsMarker(args[index]) then index else NextMarker(args, index + 1)
  }

  lemma {:induction false} GroupsOfConcat(a: seq<Group>, b: seq<Group>)
    ensures GroupArguments(a + b) == GroupArguments(a) + GroupArguments(b)
  {
    if a == [] {
      assert a + b == b;
    } else {
      assert (a + b)[1..] == a[1..] + b;
      GroupsOfConcat(a[1..], b);
    }
  }

  lemma GroupsOfOne(g: Group)
    ensures GroupArguments([g]) == [g.marker, g.name] + g.args
  {
    assert [g][1..] == [];
  }

  // Arguments that are not markers, followed by nothing or by a marker, are found in only one way.
  lemma {:induction false} FirstPartIsUnique(a: seq<string>, b: seq<string>, rest: seq<string>, rest': seq<string>)
    requires a + rest == b + rest'
    requires (forall x :: x in a ==> !IsMarker(x)) && forall x :: x in b ==> !IsMarker(x)
    requires (rest == [] || IsMarker(rest[0])) && (rest' == [] || IsMarker(rest'[0]))
    ensures a == b && rest == rest'
    decreases |a|
  {
    if a == [] {
      assert rest == b + rest';
      if b != [] {
        NotMarkerFirst(b, rest');
      }
    } else if b == [] {
      FirstPartIsUnique(b, a, rest', rest);
    } else {
      assert (a + rest)[0] == a[0] && (b + rest')[0] == b[0];
      assert (a + rest)[1..] == a[1..] + rest && (b + rest')[1..] == b[1..] + rest';
      FirstPartIsUnique(a[1..], b[1..], rest, rest');
    }
  }

  lemma NotMarkerFirst(a: seq<string>, rest: seq<string>)
    requires a != [] && forall x :: x in a ==> !IsMarker(x)
    ensures a + rest != [] && !IsMarker((a + rest)[0])
  {
  }

  // A command line is split in only one way.
  lemma SplitIsUnique(args: seq<string>, command: seq<string>, groups: seq<Group>, dangling: seq<string>,
                      command': seq<string>, groups': seq<Group>, dangling': seq<string>)
    requires IsSplit(args, command, groups, dangling) && IsSplit(args, command', groups', dangling')
    ensures command == command' && groups == groups' && dangling == dangling'
  {
    var rest, rest' := GroupArguments(groups) + dangling, GroupArguments(groups') + dangling';
    assert args == command + rest && args == command' + rest';
    BeginsWithMarker(groups, dangling);
    BeginsWithMarker(groups', dangling');
    FirstPartIsUnique(command, command', rest, rest');
    GroupsAreUnique(groups, dangling, groups', dangling');
  }

  lemma BeginsWithMarker(groups: seq<Group>, dangling: seq<string>)
    requires ValidGroups(groups) && forall a :: a in dangling ==> IsMarker(a)
    ensures var rest := GroupArguments(groups) + dangling; rest == [] || IsMarker(rest[0])
  {
    if groups != [] {
      assert ValidGroup(groups[0]);
    }
  }

  lemma {:induction false} GroupsAreUnique(groups: seq<Group>, dangling: seq<string>, groups': seq<Group>,
          dangling': seq<string>)
    requires GroupArguments(groups) + dangling == GroupArguments(groups') + dangling'
    requires ValidGroups(groups) && ValidGroups(groups') && |dangling| <= 1 && |dangling'| <= 1
    requires (forall a :: a in dangling ==> IsMarker(a)) && forall a :: a in dangling' ==> IsMarker(a)
    ensures groups == groups' && dangling == dangling'
    decreases |groups|
  {
    var all := GroupArguments(groups) + dangling;
    if groups == [] || groups' == [] {
      assert groups != [] ==> |all| >= 2;
      assert groups' != [] ==> |all| >= 2;
      assert [] + dangling == dangling && [] + dangling' == dangling';
    } else {
      var g, g' := groups[0], groups'[0];
      var rest, rest' := GroupArguments(groups[1..]) + dangling, GroupArguments(groups'[1..]) + dangling';
      assert all == [g.marker, g.name] + (g.args + rest) && all == [g'.marker, g'.name] + (g'.args + rest');
      assert all[2..] == g.args + rest && all[2..] == g'.args + rest' && all[0] == g.marker == g'.marker
          && all[1] == g.name == g'.name;
      BeginsWithMarker(groups[1..], dangling);
      BeginsWithMarker(groups'[1..], dangling');
      assert ValidGroup(g) && ValidGroup(g');
      FirstPartIsUnique(g.args, g'.args, rest, rest');
      GroupsAreUnique(groups[1..], dangling, groups'[1..], dangling');
      assert groups == [g] + groups[1..] && groups' == [g'] + groups'[1..];
    }
  }

  // ----- The analysis -----

  datatype Limits = Limits(min: nat, max: nat)

  predicate HasType(groups: seq<Group>, kind: PluginType) {
    exists g :: g in groups && Marker(g.marker) == Some(kind)
  }

  lemma NoneOfType(groups: seq<Group>, kind: PluginType)
    requires ValidGroups(groups)
    ensures OfType(groups, kind) == [] <==> !HasType(groups, kind)
  {
    hide OfType, Marker;
    var places := OfTypeInOrder(groups, kind);
    if places != [] {
      assert groups[places[0]] in groups;
    }
  }

  function Within(n: nat, limits: Limits): bool {
    limits.min <= n <= limits.max
  }

  class ArgsWithPlugins {
    const inputLimits: Limits
    const pluginLimits: Limits
    const outputLimits: Limits
    var inputs: seq<PluginOptions>
    var plugins: seq<PluginOptions>
    var outputs: seq<PluginOptions>
    var isValid: bool

    constructor (inputLimits_: Limits, pluginLimits_: Limits, outputLimits_: Limits)
      ensures inputLimits == inputLimits_ && pluginLimits == pluginLimits_ && outputLimits == outputLimits_
    {
      inputLimits, pluginLimits, outputLimits := inputLimits_, pluginLimits_, outputLimits_;
      inputs, plugins, outputs, isValid := [], [], [], false;
    }

    // The plugins of each type are those of the command line, in order.
    ghost predicate Holds(groups: seq<Group>)
      reads this
    {
      ValidGroups(groups) && inputs == OfType(groups, Input) && plugins == OfType(groups, Processor)
          && outputs == OfType(groups, Output)
    }

    method NextProcOpt(args: seq<string>, index: nat, kind: PluginType) returns (next: nat, kind': PluginType)
      requires index <= |args|
      ensures next == NextMarker(args, index)
      ensures kind' == if next < |args| then Marker(args[next]).value else kind
    {
      next := index;
      while next < |args|
        invariant index <= next <= |args| && NextMarker(args, next) == NextMarker(args, index)
      {
        var arg := args[next];
        if arg == "-I" || arg == "--input" {
          return next, Input;
        }
        if arg == "-O" || arg == "--output" {
          return next, Output;
        }
        if arg == "-P" || arg == "--processor" {
          return next, Processor;
        }
        next := next + 1;
      }
      kind' := kind;
    }

    // Record a plugin in the list of its type.
    method Record(opt: PluginOptions, ghost groups: seq<Group>, ghost g: Group)
      requires Holds(groups) && ValidGroup(g) && opt == OptionsOf(g)
      modifies this`inputs, this`plugins, this`outputs
      ensures Holds(groups + [g])
    {
      assert (groups + [g])[..|groups|] == groups;
      match opt.kind {
        case Input => inputs := inputs + [opt];
        case Processor => plugins := plugins + [opt];
        case Output => outputs := outputs + [opt];
      }
    }

    // Locate all plugins, from the index of the first marker on.
    method LocatePlugins(args: seq<string>, first: nat, kind: PluginType)
      returns (missing: bool, ghost groups: seq<Group>)
      requires first <= |args| && inputs == plugins == outputs == []
      requires first < |args| ==> IsMarker(args[first]) && kind == Marker(args[first]).value
      modifies this`inputs, this`plugins, this`outputs
      ensures Holds(groups)
      ensures missing ==> args != [] && IsMarker(args[|args| - 1])
      ensures args[first..] == GroupArguments(groups) + (if missing then [args[|args| - 1]] else [])
    {
      hide Marker;
      var index, pluginType := first, kind;
      groups := [];
      missing := false;
      assert args[first..first] == [];
      while index < |args|
        invariant first <= index <= |args| && Holds(groups) && !missing
        invariant index < |args| ==> IsMarker(args[index]) && pluginType == Marker(args[index]).value
        invariant args[first..index] == GroupArguments(groups)
      {
        if index + 1 >= |args| {
          missing := true;
          assert args[first..] == args[first..index] + [args[index]];
          break;
        }
        var start, currentType := index, pluginType;
        index, pluginType := NextProcOpt(args, start + 2, pluginType);
        var opt := PluginOptions(currentType, args[start + 1], args[start + 2..index]);
        ghost var g := Group(args[start], args[start + 1], args[start + 2..index]);
        GroupsOfConcat(groups, [g]);
        GroupsOfOne(g);
        OneMoreGroup(args, first, start, index);
        Record(opt, groups, g);
        groups := groups + [g];
      }
      assert !missing ==> args[first..index] == args[first..];
    }

    // Analyze the command line. The analysis of the arguments of the command itself and the
    // default plugins are given. Even when the last plugin has no name, the result may be
    // positive; only the validity of the object tells it.
    method Analyze(args: seq<string>, commandIsValid: seq<string> -> bool, defaultInputs: seq<PluginOptions>,
                   defaultPlugins: seq<PluginOptions>, defaultOutputs: seq<PluginOptions>)
      returns (ok: bool, ghost command: seq<string>, ghost groups: seq<Group>, ghost dangling: seq<string>)
      modifies this
      ensures command == args[..NextMarker(args, 0)]
      ensures commandIsValid(command) ==> IsSplit(args, command, groups, dangling)
      ensures !commandIsValid(command) ==> !ok && !isValid && inputs == plugins == outputs == []
      ensures commandIsValid(command) ==>
                && inputs == (if HasType(groups, Input) then OfType(groups, Input) else defaultInputs)
                && plugins == (if HasType(groups, Processor) then OfType(groups, Processor) else defaultPlugins)
                && outputs == (if HasType(groups, Output) then OfType(groups, Output) else defaultOutputs)
                && (ok <==>
                    Within(|inputs|, inputLimits) && Within(|plugins|, pluginLimits) && Within(|outputs|, outputLimits))
                && (isValid <==> ok && dangling == [])
    {
      hide IsMarker, Marker, OfType, GroupArguments, HasType;
      inputs, plugins, outputs := [], [], [];
      var pluginIndex, pluginType := NextProcOpt(args, 0, Processor);
      command, groups, dangling := args[..pluginIndex], [], [];
      isValid := commandIsValid(args[..pluginIndex]);
      if !isValid {
        return false, command, groups, dangling;
      }
      var missing;
      missing, groups := LocatePlugins(args, pluginIndex, pluginType);
      dangling := if missing then [args[|args| - 1]] else [];
      CommandAndGroups(args, command, groups, dangling);
      if missing {
        isValid := false;
      }
      NoneOfType(groups, Input);
      NoneOfType(groups, Processor);
      NoneOfType(groups, Output);
      if inputs == [] {
        inputs := defaultInputs;
      }
      if plugins == [] {
        plugins := defaultPlugins;
      }
      if outputs == [] {
        outputs := defaultOutputs;
      }
      ok := CheckCounts();
    }

    // Check the number of plugins of each type.
    method CheckCounts() returns (ok: bool)
      modifies this`isValid
      ensures ok <==>
                Within(|inputs|, inputLimits) && Within(|plugins|, pluginLimits) && Within(|outputs|, outputLimits)
      ensures isValid == (old(isValid) && ok)
    {
      if |inputs| < inputLimits.min || |outputs| < outputLimits.min || |plugins| < pluginLimits.min {
        isValid := false;
        return false;
      }
      if |inputs| > inputLimits.max || |outputs| > outputLimits.max || |plugins| > pluginLimits.max {
        isValid := false;
        return false;
      }
      return true;
    }
  }

  lemma OneMoreGroup(args: seq<string>, first: nat, start: nat, index: nat)
    requires first <= start && start + 2 <= index <= |args|
    ensures args[first..index] == args[first..start] + ([args[start], args[start + 1]] + args[start + 2..index])
  {
  }

  lemma CommandAndGroups(args: seq<string>, command: seq<string>, groups: seq<Group>, dangling: seq<string>)
    requires command == args[..NextMarker(args, 0)] && ValidGroups(groups)
    requires args[NextMarker(args, 0)..] == GroupArguments(groups) + dangling
    requires |dangling| <= 1 && forall a :: a in dangling ==> IsMarker(a)
    ensures IsSplit(args, command, groups, dangling)
  {
    assert args == command + args[NextMarker(args, 0)..];
  }
}
