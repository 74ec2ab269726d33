/**
  The analysis of a command line (tsArgs.cpp): a loop over arguments and clusters of
  one-letter options. Predefined options, redirections and the configuration file are
  not part of this model.
 */
module CommandLine {
  import opened CommandOptions

  // A value of an option; it is unset when the option has no value.
  datatype Value = Unset | Text(text: string)

  // The result of the validation of a value: what is stored, or a rejection.
  datatype Checked = Accepted(stored: string) | Rejected

  type Values = map<string, seq<Value>>

  // The declared options, the flag GATHER_PARAMETERS, and the validation of the values of
  // each option.
  datatype Syntax = Syntax(defs: seq<OptionDef>, gather: bool, check: (string, string) -> Checked)

  // What remains to be analyzed: the end of a cluster of one-letter options, if any, and
  // the next arguments.
  datatype Cursor = Cursor(cluster: string, rest: seq<string>, force: bool)

  datatype Located = Located(found: Found, val: Value, cursor: Cursor)

  datatype State = State(valid: bool, cursor: Cursor, values: Values)

  predicate AtEnd(c: Cursor) {
    c.cluster == "" && c.rest == []
  }

  predicate IsParameter(arg: string, force: bool) {
    force || arg == "" || arg[0] != '-'
  }

  // The index of the first equal sign, or the length.
  function EqualSign(s: string): (i: nat)
    ensures i <= |s|
  {
    if s == "" || s[0] == '=' then 0 else 1 + EqualSign(s[1..])
  }

  // Locate the next option and the value that is in the same argument, if any.
  function Locate(syntax: Syntax, c: Cursor): Located
    requires !AtEnd(c)
  {
    if c.cluster != "" then
      Located(SearchShort(syntax.defs, c.cluster[0]), Unset, c.(cluster := c.cluster[1..]))
    else
      var arg := c.rest[0];
      if IsParameter(arg, c.force) then
        Located(SearchName(syntax.defs, ""), Unset, c.(force := syntax.gather))
      else if |arg| == 1 then
        Located(SearchName(syntax.defs, ""), Unset, c.(rest := c.rest[1..]))
      else if arg[1] == '-' then
        LocateLong(syntax, arg, c)
      else
        Located(SearchShort(syntax.defs, arg[1]), Unset, c.(cluster := arg[2..], rest := c.rest[1..]))
  }

  function LocateLong(syntax: Syntax, arg: string, c: Cursor): Located
    requires c.rest != []
  {
    var equal := EqualSign(arg);
    if 2 <= equal < |arg| then
      Located(SearchName(syntax.defs, arg[2..equal]), Text(arg[equal + 1..]), c.(rest := c.rest[1..]))
    else
      Located(SearchName(syntax.defs, if |arg| >= 2 then arg[2..] else ""), Unset, c.(rest := c.rest[1..]))
  }

  function Get(values: Values, name: string): seq<Value> {
    if name in values then values[name] else []
  }

  function Push(values: Values, name: string, v: Value): Values {
    values[name := Get(values, name) + [v]]
  }

  // Validate a value and store it.
  function Store(syntax: Syntax, def: OptionDef, val: Value, st: State): State {
    match val
    case Unset => st.(values := Push(st.values, def.name, Unset))
    case Text(text) =>
      match syntax.check(def.name, text)
      case Accepted(stored) => st.(values := Push(st.values, def.name, Text(stored)))
      case Rejected => st.(valid := false)
  }

  // The value of an option: the one found with it, the end of the cluster, or the next
  // argument when the value is mandatory.
  function TakeValue(syntax: Syntax, def: OptionDef, val: Value, st: State): State {
    var c := st.cursor;
    if c.cluster != "" then Store(syntax, def, Text(c.cluster), st.(cursor := c.(cluster := "")))
    else if val.Unset? && !def.optional then
      if c.rest == [] then st.(valid := false)
      else Store(syntax, def, Text(c.rest[0]), st.(cursor := c.(rest := c.rest[1..])))
    else Store(syntax, def, val, st)
  }

  // One iteration of the loop.
  function Step(syntax: Syntax, st: State): State
    requires st.valid && !AtEnd(st.cursor)
  {
    var l := Locate(syntax, st.cursor);
    match l.found
    case NotFound => State(false, l.cursor, st.values)
    case Found(def) =>
      if !def.hasValue then State(l.val.Unset?, l.cursor, Push(st.values, def.name, l.val))
      else TakeValue(syntax, def, l.val, st.(cursor := l.cursor))
  }

  // Parameters have a mandatory value, or are not allowed.
  predicate PlainParameters(syntax: Syntax) {
    match SearchName(syntax.defs, "")
    case Found(def) => def.hasValue && !def.optional
    case NotFound => true
  }

  predicate AtParameter(st: State) {
    && st.valid && st.cursor.cluster == "" && st.cursor.rest != []
    && IsParameter(st.cursor.rest[0], st.cursor.force)
  }

  // At a parameter which is not taken, as parameters do not have a mandatory value.
  predicate Stuck(syntax: Syntax, st: State) {
    AtParameter(st) && !PlainParameters(syntax)
  }

  predicate Shorter(c': Cursor, c: Cursor) {
    |c'.rest| < |c.rest| || (|c'.rest| == |c.rest| && |c'.cluster| < |c.cluster|)
  }

  // Only a parameter is located without going on.
  lemma LocateShrinks(syntax: Syntax, st: State)
    requires st.valid && !AtEnd(st.cursor)
    ensures var l := Locate(syntax, st.cursor);
            if AtParameter(st) then
              l == Located(SearchName(syntax.defs, ""), Unset, st.cursor.(force := syntax.gather))
            else Shorter(l.cursor, st.cursor)
  {
    hide SearchName, SearchShort, EqualSign;
  }

  lemma StepShrinks(syntax: Syntax, st: State)
    requires st.valid && !AtEnd(st.cursor) && !Stuck(syntax, st)
    ensures !Step(syntax, st).valid || Shorter(Step(syntax, st).cursor, st.cursor)
  {
    hide SearchName, Locate;
    LocateShrinks(syntax, st);
  }

  // The loop, up to its end or to a parameter that is not taken.
  function Run(syntax: Syntax, st: State): State
    decreases st.valid, |st.cursor.rest|, |st.cursor.cluster|
  {
    if Ended(st) || Stuck(syntax, st) then st
    else
      StepShrinks(syntax, st);
      Run(syntax, Step(syntax, st))
  }

  predicate Ended(st: State) {
    !st.valid || AtEnd(st.cursor)
  }

  // All arguments are accepted.
  predicate Accepts(syntax: Syntax, st: State) {
    Run(syntax, st).valid && AtEnd(Run(syntax, st).cursor)
  }

  function Begin(args: seq<string>): State {
    State(true, Cursor("", args, false), map[])
  }

  // ----- The analysis goes on after arguments that are accepted -----

  function More(st: State, args: seq<string>): State {
    st.(cursor := st.cursor.(rest := st.cursor.rest + args))
  }

  // The next option has a mandatory value, and nothing is left to be this value.
  predicate MissesValue(syntax: Syntax, st: State)
    requires st.valid && !AtEnd(st.cursor)
  {
    var l := Locate(syntax, st.cursor);
    && l.found.Found? && l.found.def.hasValue && !l.found.def.optional && l.val.Unset?
    && AtEnd(l.cursor)
  }

  lemma StepWithMore(syntax: Syntax, st: State, args: seq<string>)
    requires st.valid && !AtEnd(st.cursor) && !MissesValue(syntax, st)
    ensures Step(syntax, More(st, args)) == More(Step(syntax, st), args)
  {
    LocateWithMore(syntax, st.cursor, args);
    hide Locate, Store;
    var l := Locate(syntax, st.cursor);
    if l.found.Found? && l.found.def.hasValue {
      TakeValueWithMore(syntax, l.found.def, l.val, st.(cursor := l.cursor), args);
    }
  }

  lemma LocateWithMore(syntax: Syntax, c: Cursor, args: seq<string>)
    requires !AtEnd(c)
    ensures var l := Locate(syntax, c);
            Locate(syntax, c.(rest := c.rest + args)) == l.(cursor := l.cursor.(rest := l.cursor.rest + args))
  {
    hide SearchName, SearchShort, EqualSign;
    if c.rest != [] {
      assert (c.rest + args)[1..] == c.rest[1..] + args;
    }
  }

  lemma TakeValueWithMore(syntax: Syntax, def: OptionDef, val: Value, st: State, args: seq<string>)
    requires def.optional || !val.Unset? || !AtEnd(st.cursor)
    ensures TakeValue(syntax, def, val, More(st, args)) == More(TakeValue(syntax, def, val, st), args)
  {
    if st.cursor.rest != [] {
      assert (st.cursor.rest + args)[1..] == st.cursor.rest[1..] + args;
    }
  }

  lemma {:induction false} RunWithMore(syntax: Syntax, st: State, args: seq<string>)
    requires Accepts(syntax, st)
    ensures var done := Run(syntax, st);
            Run(syntax, More(st, args)) == Run(syntax, State(true, Cursor("", args, done.cursor.force), done.values))
    decreases st.valid, |st.cursor.rest|, |st.cursor.cluster|
  {
    hide Step, PlainParameters;
    if AtEnd(st.cursor) {
      assert [] + args == args;
    } else {
      StepShrinks(syntax, st);
      MissingIsRejected(syntax, st);
      assert Run(syntax, Step(syntax, st)) == Run(syntax, st);
      StepWithMore(syntax, st, args);
      RunWithMore(syntax, Step(syntax, st), args);
    }
  }

  lemma MissingIsRejected(syntax: Syntax, st: State)
    requires st.valid && !AtEnd(st.cursor)
    ensures MissesValue(syntax, st) ==> !Step(syntax, st).valid
  {
    hide Locate;
  }

  // The loop is stopped by an option whose mandatory value is missing.
  predicate StopsOnMissing(syntax: Syntax, st: State)
    decreases st.valid, |st.cursor.rest|, |st.cursor.cluster|
  {
    && !Ended(st) && !Stuck(syntax, st)
    && (MissesValue(syntax, st) || (StepShrinks(syntax, st); StopsOnMissing(syntax, Step(syntax, st))))
  }

  // After a rejection for another reason, or at a parameter that is not taken, more
  // arguments change nothing.
  lemma {:induction false} StoppedWithMore(syntax: Syntax, st: State, args: seq<string>)
    requires !Accepts(syntax, st) && !StopsOnMissing(syntax, st)
    ensures var r, r' := Run(syntax, st), Run(syntax, More(st, args));
            r'.valid == r.valid && r'.values == r.values && Ended(r') == Ended(r)
    decreases st.valid, |st.cursor.rest|, |st.cursor.cluster|
  {
    hide Step, PlainParameters, MissesValue;
    if !Ended(st) && !Stuck(syntax, st) {
      StepShrinks(syntax, st);
      StepWithMore(syntax, st, args);
      StoppedWithMore(syntax, Step(syntax, st), args);
    }
  }

  // ----- Forms of options -----

  // The four ways to give a value to an option.
  datatype Form = LongThenValue | LongWithValue | ShortThenValue | ShortWithValue

  function Arguments(form: Form, name: string, short: char, v: string): seq<string> {
    match form
    case LongThenValue => ["--" + name, v]
    case LongWithValue => ["--" + name + "=" + v]
    case ShortThenValue => [['-', short], v]
    case ShortWithValue => [['-', short] + v]
  }

  // The option has a mandatory value and both names designate it.
  predicate Named(syntax: Syntax, name: string, def: OptionDef) {
    && SearchName(syntax.defs, name) == Found(def) && EqualSign(name) == |name|
    && SearchShort(syntax.defs, def.short) == Found(def) && def.hasValue && !def.optional
  }

  // The form gives the value to the option. With the short name '-', the first argument
  // begins as a long option, which must then be the same one, with a value that is
  // stored in the same way. An empty value cannot follow a short name at once.
  predicate Gives(syntax: Syntax, form: Form, def: OptionDef, v: string) {
    match form
    case LongThenValue => true
    case LongWithValue => true
    case ShortThenValue => def.short == '-' ==> SearchName(syntax.defs, "") == Found(def)
    case ShortWithValue => v != "" && (def.short == '-' ==> LongGives(syntax, def, v))
  }

  // A text after two dashes gives an option a value that is stored as that text.
  predicate LongGives(syntax: Syntax, def: OptionDef, text: string) {
    var equal := EqualSign(text);
    && equal < |text| && SearchName(syntax.defs, text[..equal]) == Found(def)
    && syntax.check(def.name, text[equal + 1..]) == syntax.check(def.name, text)
  }

  lemma {:induction false} EqualSignAfter(a: string, b: string)
    requires EqualSign(a) == |a|
    ensures EqualSign(a + b) == |a| + EqualSign(b)
  {
    if a == "" {
      assert a + b == b;
    } else {
      assert (a + b)[1..] == a[1..] + b;
      EqualSignAfter(a[1..], b);
    }
  }

  // All forms that give the value have the same effect, in one step.
  lemma StepOfForm(syntax: Syntax, form: Form, name: string, def: OptionDef, v: string, post: seq<string>,
          values: Values)
    requires Named(syntax, name, def) && Gives(syntax, form, def, v)
    ensures Step(syntax, State(true, Cursor("", Arguments(form, name, def.short, v) + post, false), values))
         == Store(syntax, def, Text(v), State(true, Cursor("", post, false), values))
  {
    hide SearchName, SearchShort, EqualSign;
    var args := Arguments(form, name, def.short, v);
    LongArgument(name, v);
    match form {
      case LongThenValue => assert (args + post)[1..] == [v] + post && ([v] + post)[1..] == post;
      case LongWithValue => assert (args + post)[1..] == post;
      case ShortThenValue =>
        assert (args + post)[1..] == [v] + post && ([v] + post)[1..] == post;
        DashArgument("");
      case ShortWithValue =>
        assert (args + post)[1..] == post && (['-', def.short] + v)[2..] == v;
        DashArgument(v);
    }
  }

  // A text after the short name '-' is read after two dashes.
  lemma DashArgument(text: string)
    ensures ['-', '-'] + text == "--" + text
    ensures EqualSign("--" + text) == 2 + EqualSign(text) && ("--" + text)[2..] == text
    ensures var equal := EqualSign(text); ("--" + text)[2..2 + equal] == text[..equal]
    ensures var equal := EqualSign(text); equal < |text| ==> ("--" + text)[2 + equal + 1..] == text[equal + 1..]
  {
    TwoDashes();
    hide EqualSign;
    EqualSignAfter("--", text);
    AfterDashes(text, EqualSign(text));
  }

  lemma AfterDashes(text: string, n: nat)
    requires n <= |text|
    ensures ("--" + text)[2..] == text && ("--" + text)[2..2 + n] == text[..n]
    ensures n < |text| ==> ("--" + text)[2 + n + 1..] == text[n + 1..]
  {
  }

  lemma TwoDashes()
    ensures EqualSign("--") == 2
  {
  }

  // With a short name and an empty value in the same argument, the next argument is the
  // value, and nothing is when there is none.
  lemma EmptyValueTakesNext(syntax: Syntax, def: OptionDef, name: string, post: seq<string>, values: Values)
    requires Named(syntax, name, def) && def.short != '-'
    ensures Step(syntax, State(true, Cursor("", Arguments(ShortWithValue, name, def.short, "") + post, false), values))
         == if post == [] then State(false, Cursor("", [], false), values)
            else Store(syntax, def, Text(post[0]), State(true, Cursor("", post[1..], false), values))
  {
    hide SearchName, SearchShort, EqualSign, Store;
    var args := Arguments(ShortWithValue, name, def.short, "");
    assert args[0] == ['-', def.short] && (args + post)[1..] == post;
  }

  lemma LongArgument(name: string, v: string)
    requires EqualSign(name) == |name|
    ensures EqualSign("--" + name) == |name| + 2 && ("--" + name)[2..] == name
    ensures var arg := "--" + name + "=" + v;
            EqualSign(arg) == |name| + 2 && arg[2..|name| + 2] == name && arg[|name| + 3..] == v
  {
    hide EqualSign;
    LongEqualSign(name, v);
    LongParts(name, v);
  }

  lemma LongEqualSign(name: string, v: string)
    requires EqualSign(name) == |name|
    ensures EqualSign("--" + name) == EqualSign("--" + name + "=" + v) == |name| + 2
  {
    TwoDashes();
    assert EqualSign("=" + v) == 0;
    hide EqualSign;
    EqualSignAfter("--", name);
    EqualSignAfter("--" + name, "=" + v);
    assert "--" + name + "=" + v == ("--" + name) + ("=" + v);
  }

  lemma LongParts(name: string, v: string)
    ensures ("--" + name)[2..] == name
    ensures var arg := "--" + name + "=" + v; arg[2..|name| + 2] == name && arg[|name| + 3..] == v
  {
    var head := "--" + name;
    assert (head + "=" + v)[..|head|] == head && (head + "=" + v)[|head| + 1..] == v;
    assert head[2..] == name;
  }

  // What comes before an occurrence does not force the rest to be parameters, and does not
  // make the occurrence a value.
  predicate Ordinary(syntax: Syntax, pre: seq<string>) {
    !StopsOnMissing(syntax, Begin(pre)) && (Accepts(syntax, Begin(pre)) ==> !Run(syntax, Begin(pre)).cursor.force)
  }

  // Two lists of arguments can replace each other after and before some other ones: the
  // loop ends or not with the same values and the same validity.
  predicate SameAt(syntax: Syntax, pre: seq<string>, a: seq<string>, b: seq<string>, post: seq<string>) {
    var r, r' := Run(syntax, Begin(pre + a + post)), Run(syntax, Begin(pre + b + post));
    r.valid == r'.valid && r.values == r'.values && Ended(r) == Ended(r')
  }

  // They can do so anywhere on a command line.
  ghost predicate Interchangeable(syntax: Syntax, a: seq<string>, b: seq<string>) {
    forall pre, post :: Ordinary(syntax, pre) ==> SameAt(syntax, pre, a, b, post)
  }

  // Replacing one form by another one anywhere on a command line changes nothing, if
  // both give the value to the option.
  lemma FormsAreEquivalent(syntax: Syntax, f: Form, g: Form, name: string, name': string, def: OptionDef, v: string)
    requires Named(syntax, name, def) && Gives(syntax, f, def, v)
    requires Named(syntax, name', def) && Gives(syntax, g, def, v)
    ensures Interchangeable(syntax, Arguments(f, name, def.short, v), Arguments(g, name', def.short, v))
  {
    hide Step, Named, Gives, Run, StopsOnMissing, Accepts, Arguments;
    var a, b := Arguments(f, name, def.short, v), Arguments(g, name', def.short, v);
    forall pre, post | Ordinary(syntax, pre) ensures SameAt(syntax, pre, a, b, post) {
      if Accepts(syntax, Begin(pre)) {
        RunForm(syntax, f, name, def, v, pre, post);
        RunForm(syntax, g, name', def, v, pre, post);
      } else {
        StoppedBefore(syntax, pre, a, post);
        StoppedBefore(syntax, pre, b, post);
      }
    }
  }

  lemma StoppedBefore(syntax: Syntax, pre: seq<string>, args: seq<string>, post: seq<string>)
    requires !Accepts(syntax, Begin(pre)) && !StopsOnMissing(syntax, Begin(pre))
    ensures var r, r' := Run(syntax, Begin(pre)), Run(syntax, Begin(pre + args + post));
            r'.valid == r.valid && r'.values == r.values && Ended(r') == Ended(r)
  {
    hide Step, PlainParameters, Run, StopsOnMissing, Accepts;
    assert pre + args + post == pre + (args + post);
    assert More(Begin(pre), args + post) == Begin(pre + (args + post));
    StoppedWithMore(syntax, Begin(pre), args + post);
  }

  lemma RunForm(syntax: Syntax, form: Form, name: string, def: OptionDef, v: string, pre: seq<string>,
          post: seq<string>)
    requires Named(syntax, name, def) && Gives(syntax, form, def, v)
    requires Accepts(syntax, Begin(pre)) && !Run(syntax, Begin(pre)).cursor.force
    ensures Run(syntax, Begin(pre + Arguments(form, name, def.short, v) + post))
         == Run(syntax,
             Store(syntax, def, Text(v), State(true, Cursor("", post, false), Run(syntax, Begin(pre)).values)))
  {
    hide Step, PlainParameters, Named, Gives, Store;
    var args := Arguments(form, name, def.short, v);
    AfterAccepted(syntax, pre, args, post);
    StepOfForm(syntax, form, name, def, v, post, Run(syntax, Begin(pre)).values);
    assert (args + post)[0] == args[0] && !IsParameter(args[0], false);
  }

  // ----- When the forms are equivalent -----

  // The result when an option is alone on the command line: its value.
  lemma LongAlone(syntax: Syntax, name: string, def: OptionDef, v: string)
    requires Named(syntax, name, def) && syntax.check(def.name, v).Accepted?
    ensures Run(syntax, Begin(Arguments(LongWithValue, name, def.short, v)))
         == State(true, Cursor("", [], false), map[def.name := [Text(syntax.check(def.name, v).stored)]])
  {
    hide Named, Step;
    var args := Arguments(LongWithValue, name, def.short, v);
    assert args + [] == args && !IsParameter(args[0], false);
    StepOfForm(syntax, LongWithValue, name, def, v, [], map[]);
    var st := Store(syntax, def, Text(v), Begin([]));
    assert Begin(args) == State(true, Cursor("", args + [], false), map[]);
    assert Step(syntax, Begin(args)) == st;
    assert !Stuck(syntax, Begin(args)) && Ended(st);
    assert Run(syntax, Begin(args)) == Run(syntax, st) == st;
    var stored := syntax.check(def.name, v).stored;
    assert st.values == Push(map[], def.name, Text(stored));
    assert [] + [Text(stored)] == [Text(stored)];
  }

  lemma FoundIsOption(syntax: Syntax, name: string, def: OptionDef)
    requires ValidDefs(syntax.defs) && SearchName(syntax.defs, name) == Found(def)
    ensures def in syntax.defs && (name == "" ==> def.name == "")
  {
    SearchFindsNamed(syntax.defs, name);
  }

  // An option is known by its name.
  lemma SameOption(syntax: Syntax, d: OptionDef, d': OptionDef)
    requires ValidDefs(syntax.defs) && d in syntax.defs && d' in syntax.defs && d.name == d'.name
    ensures d == d'
  {
    LessIsTotal(d.name, d'.name);
  }

  // Options keep the values that they have.
  lemma {:induction false} ValuesStay(syntax: Syntax, st: State, name: string)
    requires name in st.values
    ensures name in Run(syntax, st).values
    decreases st.valid, |st.cursor.rest|, |st.cursor.cluster|
  {
    hide Locate, PlainParameters;
    if !Ended(st) && !Stuck(syntax, st) {
      StepShrinks(syntax, st);
      ValuesStay(syntax, Step(syntax, st), name);
    }
  }

  // Two dashes alone are for the parameters, or an error.
  lemma DashesAlone(syntax: Syntax, rest: seq<string>, def: OptionDef)
    requires ValidDefs(syntax.defs) && SearchName(syntax.defs, "") != Found(def) && def in syntax.defs
    ensures var r := Run(syntax, Begin(["--"] + rest)); !r.valid || ("" in r.values && "" != def.name)
  {
    hide SearchName, SearchShort, EqualSign;
    assert (["--"] + rest)[1..] == rest;
    DashArgument("");
    var st := Step(syntax, Begin(["--"] + rest));
    assert (["--"] + rest)[0] == "--" && "--" + "" == "--";
    assert Run(syntax, Begin(["--"] + rest)) == Run(syntax, st);
    match SearchName(syntax.defs, "") {
      case NotFound =>
      case Found(d) =>
        FoundIsOption(syntax, "", d);
        if def.name == "" {
          SameOption(syntax, d, def);
        }
        if st.valid {
          ValuesStay(syntax, st, "");
        }
    }
  }

  // The result is not the value of the option.
  predicate Differs(r: State, def: OptionDef, stored: string) {
    !r.valid || r.values != map[def.name := [Text(stored)]]
  }

  // A text after two dashes that does not give the value.
  lemma TextAlone(syntax: Syntax, def: OptionDef, v: string)
    requires ValidDefs(syntax.defs) && def in syntax.defs && v != ""
    requires syntax.check(def.name, v).Accepted? && !LongGives(syntax, def, v)
    ensures Differs(Run(syntax, Begin(["--" + v])), def, syntax.check(def.name, v).stored)
  {
    hide SearchName, SearchShort, EqualSign;
    LocateText(syntax, v);
    hide Locate;
    var st := Step(syntax, Begin(["--" + v]));
    assert Run(syntax, Begin(["--" + v])) == Run(syntax, st) == st;
    var equal := EqualSign(v);
    var found := SearchName(syntax.defs, v[..equal]);
    if equal < |v| && found.Found? {
      var d := found.def;
      FoundIsOption(syntax, v[..equal], d);
      if d.name == def.name {
        SameOption(syntax, d, def);
        assert syntax.check(def.name, v[equal + 1..]) != syntax.check(def.name, v);
        assert st.valid ==> st == Store(syntax, def, Text(v[equal + 1..]), State(true, Cursor("", [], false), map[]));
        StoreDiffers(syntax, def, v[equal + 1..], v);
      } else {
        assert st.valid ==> d.name in st.values;
      }
    } else if equal == |v| && SearchName(syntax.defs, v).Found? {
      UnsetDiffers(SearchName(syntax.defs, v).def.name, def.name, syntax.check(def.name, v).stored);
    }
  }

  lemma LocateText(syntax: Syntax, v: string)
    ensures var equal, end := EqualSign(v), Cursor("", [], false);
            Locate(syntax, Cursor("", ["--" + v], false))
            == if equal < |v| then Located(SearchName(syntax.defs, v[..equal]), Text(v[equal + 1..]), end)
               else Located(SearchName(syntax.defs, v), Unset, end)
  {
    hide SearchName, SearchShort, EqualSign;
    DashArgument(v);
  }

  // Two texts that are not stored in the same way.
  lemma StoreDiffers(syntax: Syntax, def: OptionDef, text: string, v: string)
    requires syntax.check(def.name, text) != syntax.check(def.name, v) && syntax.check(def.name, v).Accepted?
    ensures Differs(Store(syntax, def, Text(text), State(true, Cursor("", [], false), map[])), def,
            syntax.check(def.name, v).stored)
  {
    var stored := syntax.check(def.name, v).stored;
    match syntax.check(def.name, text) {
      case Rejected =>
      case Accepted(stored') =>
        assert stored' != stored
            && map[def.name := [Text(stored')]][def.name] != map[def.name := [Text(stored)]][def.name];
    }
  }

  lemma UnsetDiffers(name: string, name': string, text: string)
    ensures Push(map[], name, Unset) != map[name' := [Text(text)]]
  {
    assert name in Push(map[], name, Unset) && Push(map[], name, Unset)[name] == [Unset];
    assert [Unset] != [Text(text)];
  }

  // Alone on the command line, a form that does not give the value has another result.
  lemma OtherwiseDiffers(syntax: Syntax, form: Form, name: string, def: OptionDef, v: string)
    requires ValidDefs(syntax.defs) && Named(syntax, name, def) && syntax.check(def.name, v).Accepted?
    requires !Gives(syntax, form, def, v)
    ensures Differs(Run(syntax, Begin(Arguments(form, name, def.short, v))), def, syntax.check(def.name, v).stored)
  {
    hide SearchName, SearchShort, EqualSign, Run, Step, LongGives, Begin;
    FoundIsOption(syntax, name, def);
    if form.ShortThenValue? {
      assert Arguments(form, name, def.short, v) == ["--"] + [v];
      DashesAlone(syntax, [v], def);
    } else if v != "" {
      DashArgument(v);
      TextAlone(syntax, def, v);
    } else {
      EmptyAlone(syntax, name, def);
    }
  }

  lemma EmptyAlone(syntax: Syntax, name: string, def: OptionDef)
    requires ValidDefs(syntax.defs) && Named(syntax, name, def) && syntax.check(def.name, "").Accepted?
    ensures Differs(Run(syntax, Begin(Arguments(ShortWithValue, name, def.short, ""))), def,
            syntax.check(def.name, "").stored)
  {
    hide SearchName, SearchShort, EqualSign;
    var args := Arguments(ShortWithValue, name, def.short, "");
    assert args + [] == args && args[0] == ['-', def.short] && args[1..] == [];
    FoundIsOption(syntax, name, def);
    if def.short != '-' {
      EmptyValueTakesNext(syntax, def, name, [], map[]);
    } else if SearchName(syntax.defs, "") != Found(def) {
      assert ['-', '-'] == "--" && ["--"] + [] == args;
      DashesAlone(syntax, [], def);
    } else {
      LocateText(syntax, "");
      assert ['-', '-'] == "--" + "" && EqualSign("") == 0;
    }
  }

  // For a value that the option accepts, a form can replace the form with two dashes and
  // an equal sign anywhere if and only if it gives the value. It is enough to look at a
  // command line with nothing else.
  lemma EquivalentIff(syntax: Syntax, form: Form, name: string, def: OptionDef, v: string)
    requires ValidDefs(syntax.defs) && Named(syntax, name, def) && syntax.check(def.name, v).Accepted?
    ensures var a, b := Arguments(form, name, def.short, v), Arguments(LongWithValue, name, def.short, v);
            && (Interchangeable(syntax, a, b) <==> Gives(syntax, form, def, v))
            && (SameAt(syntax, [], a, b, []) <==> Gives(syntax, form, def, v))
  {
    hide Named, Run, Step, Gives, Arguments;
    var a, b := Arguments(form, name, def.short, v), Arguments(LongWithValue, name, def.short, v);
    assert [] + a + [] == a && [] + b + [] == b;
    NothingBefore(syntax);
    LongAlone(syntax, name, def, v);
    if Gives(syntax, form, def, v) {
      LongFormGives(syntax, def, v);
      FormsAreEquivalent(syntax, form, LongWithValue, name, name, def, v);
    } else {
      OtherwiseDiffers(syntax, form, name, def, v);
      assert !SameAt(syntax, [], a, b, []);
    }
  }

  lemma NothingBefore(syntax: Syntax)
    ensures Ordinary(syntax, [])
  {
  }

  lemma LongFormGives(syntax: Syntax, def: OptionDef, v: string)
    ensures Gives(syntax, LongWithValue, def, v)
  {
  }

  // An empty value: the option with its short name takes the next argument instead.
  lemma EmptyValueIsNotEquivalent(syntax: Syntax, name: string, def: OptionDef)
    requires ValidDefs(syntax.defs) && Named(syntax, name, def) && syntax.check(def.name, "").Accepted?
    ensures !Interchangeable(syntax, Arguments(ShortWithValue, name, def.short, ""),
            Arguments(LongWithValue, name, def.short, ""))
  {
    EquivalentIff(syntax, ShortWithValue, name, def, "");
  }

  // The short name '-': `--x` instead of `--o=x` is an unknown option.
  lemma ShortDashIsNotEquivalent(syntax: Syntax)
    requires syntax.defs == [OptionDef("o", '-', true, false, 0, 1)] && syntax.check("o", "x").Accepted?
    ensures Run(syntax, Begin(["--o=x"])).valid && !Run(syntax, Begin(["--x"])).valid
    ensures !Interchangeable(syntax, ["--x"], ["--o=x"])
  {
    hide Run, Interchangeable;
    var def := syntax.defs[0];
    NoEqualSign('x');
    NoEqualSign('o');
    assert ['-', '-'] + "x" == "--x" && "--" + "o" + "=" + "x" == "--o=x" && "x"[0] != "o"[0];
    assert !Abbreviates("x", "o");
    assert ScanNames(syntax.defs, "x", 1, NotFound) == NotFound;
    EquivalentIff(syntax, ShortWithValue, "o", def, "x");
    LongAlone(syntax, "o", def, "x");
    UnknownAlone(syntax, "x");
  }

  lemma NoEqualSign(c: char)
    requires c != '='
    ensures EqualSign([c]) == 1
  {
    assert [c][1..] == "";
  }

  // A long option that is not declared is an error.
  lemma UnknownAlone(syntax: Syntax, name: string)
    requires EqualSign(name) == |name| && SearchName(syntax.defs, name) == NotFound
    ensures !Run(syntax, Begin(["--" + name])).valid
  {
    hide SearchName, EqualSign;
    LocateText(syntax, name);
    hide Locate;
  }

  // A cluster of one-letter options is the same as separate options, when the first one
  // has no value.
  lemma ClusterIsSplit(syntax: Syntax, def: OptionDef, cluster: string)
    requires SearchShort(syntax.defs, def.short) == Found(def) && def.short != '-' && !def.hasValue
    requires cluster != "" && cluster[0] != '-'
    ensures Interchangeable(syntax, [['-', def.short] + cluster], [['-', def.short], "-" + cluster])
  {
    hide Step, PlainParameters, StopsOnMissing, Run, Accepts;
    var a, b := [['-', def.short] + cluster], [['-', def.short], "-" + cluster];
    forall pre, post | Ordinary(syntax, pre) ensures SameAt(syntax, pre, a, b, post) {
      if Accepts(syntax, Begin(pre)) {
        var values := Run(syntax, Begin(pre)).values;
        AfterAccepted(syntax, pre, a, post);
        AfterAccepted(syntax, pre, b, post);
        FlagStep(syntax, def, cluster, post, values);
      } else {
        StoppedBefore(syntax, pre, a, post);
        StoppedBefore(syntax, pre, b, post);
      }
    }
  }

  lemma AfterAccepted(syntax: Syntax, pre: seq<string>, args: seq<string>, post: seq<string>)
    requires Accepts(syntax, Begin(pre)) && !Run(syntax, Begin(pre)).cursor.force
    ensures Run(syntax, Begin(pre + args + post))
         == Run(syntax, State(true, Cursor("", args + post, false), Run(syntax, Begin(pre)).values))
  {
    hide Step, PlainParameters, StopsOnMissing, Run, Accepts;
    assert pre + args + post == pre + (args + post);
    assert More(Begin(pre), args + post) == Begin(pre + (args + post));
    RunWithMore(syntax, Begin(pre), args + post);
  }

  lemma FlagStep(syntax: Syntax, def: OptionDef, cluster: string, post: seq<string>, values: Values)
    requires SearchShort(syntax.defs, def.short) == Found(def) && def.short != '-' && !def.hasValue
    requires cluster != "" && cluster[0] != '-'
    ensures Run(syntax, State(true, Cursor("", [['-', def.short] + cluster] + post, false), values))
         == Run(syntax, State(true, Cursor("", [['-', def.short], "-" + cluster] + post, false), values))
  {
    hide SearchName, SearchShort, EqualSign, PlainParameters, TakeValue;
    var values' := Push(values, def.name, Unset);
    assert ([['-', def.short] + cluster] + post)[1..] == post && (['-', def.short] + cluster)[2..] == cluster;
    assert ([['-', def.short], "-" + cluster] + post)[1..] == ["-" + cluster] + post;
    assert (["-" + cluster] + post)[1..] == post && ("-" + cluster)[2..] == cluster[1..];
    var together := State(true, Cursor(cluster, post, false), values');
    var apart := State(true, Cursor("", ["-" + cluster] + post, false), values');
    assert Step(syntax, together) == Step(syntax, apart);
  }

  // ----- The values of an option -----

  // One value is stored after those of an option, and no other option changes.
  predicate OneMore(before: Values, after: Values, name: string, v: Value) {
    && name in after && after[name] == (if name in before then before[name] else []) + [v]
    && (forall other :: other in after && other != name ==> other in before && before[other] == after[other])
    && forall other :: other in before ==> other in after
  }

  // The values of all options only grow at their ends.
  predicate Grows(before: Values, after: Values) {
    forall name :: name in before ==> name in after && before[name] <= after[name]
  }

  lemma StepGrows(syntax: Syntax, st: State)
    requires st.valid && !AtEnd(st.cursor)
    ensures Grows(st.values, Step(syntax, st).values)
  {
    hide Locate;
  }

  lemma {:induction false} RunGrows(syntax: Syntax, st: State)
    ensures Grows(st.values, Run(syntax, st).values)
    decreases st.valid, |st.cursor.rest|, |st.cursor.cluster|
  {
    hide Step, Stuck;
    if !Ended(st) && !Stuck(syntax, st) {
      StepShrinks(syntax, st);
      StepGrows(syntax, st);
      RunGrows(syntax, Step(syntax, st));
    }
  }

  // The values of all options after some arguments are the first ones after more arguments.
  lemma ValuesInOrder(syntax: Syntax, pre: seq<string>, args: seq<string>)
    requires Accepts(syntax, Begin(pre))
    ensures Grows(Run(syntax, Begin(pre)).values, Run(syntax, Begin(pre + args)).values)
  {
    hide Run, Step, Accepts;
    var done := Run(syntax, Begin(pre));
    assert More(Begin(pre), args) == Begin(pre + args);
    RunWithMore(syntax, Begin(pre), args);
    RunGrows(syntax, State(true, Cursor("", args, done.cursor.force), done.values));
  }

  // After an occurrence in any form, the values of the option end with its value.
  lemma OccurrenceIsLast(syntax: Syntax, form: Form, name: string, def: OptionDef, v: string, pre: seq<string>)
    requires Named(syntax, name, def) && Gives(syntax, form, def, v) && syntax.check(def.name, v).Accepted?
    requires Accepts(syntax, Begin(pre)) && !Run(syntax, Begin(pre)).cursor.force
    ensures var all := pre + Arguments(form, name, def.short, v);
            && Accepts(syntax, Begin(all))
            && OneMore(Run(syntax, Begin(pre)).values, Run(syntax, Begin(all)).values,
                       def.name, Text(syntax.check(def.name, v).stored))
  {
    hide Step, Named, Gives, Arguments;
    var all := pre + Arguments(form, name, def.short, v);
    assert all + [] == all;
    RunForm(syntax, form, name, def, v, pre, []);
  }

  // A value that is rejected is an error, and is not stored.
  lemma RejectedIsError(syntax: Syntax, form: Form, name: string, def: OptionDef, v: string, pre: seq<string>,
                        post: seq<string>)
    requires Named(syntax, name, def) && Gives(syntax, form, def, v) && syntax.check(def.name, v).Rejected?
    requires Accepts(syntax, Begin(pre)) && !Run(syntax, Begin(pre)).cursor.force
    ensures var r := Run(syntax, Begin(pre + Arguments(form, name, def.short, v) + post));
            !r.valid && r.values == Run(syntax, Begin(pre)).values
  {
    hide Step, Named, Gives, Arguments;
    RunForm(syntax, form, name, def, v, pre, post);
  }

  // So is an option that is not declared, or is ambiguous.
  lemma UnknownIsError(syntax: Syntax, name: string, pre: seq<string>, post: seq<string>)
    requires SearchName(syntax.defs, name) == NotFound && EqualSign(name) == |name|
    requires Accepts(syntax, Begin(pre)) && !Run(syntax, Begin(pre)).cursor.force
    ensures var r := Run(syntax, Begin(pre + ["--" + name] + post));
            !r.valid && r.values == Run(syntax, Begin(pre)).values
  {
    hide Step, Run, SearchName, EqualSign, StopsOnMissing;
    AfterAccepted(syntax, pre, ["--" + name], post);
    UnknownNext(syntax, name, post, Run(syntax, Begin(pre)).values);
  }

  lemma UnknownNext(syntax: Syntax, name: string, post: seq<string>, values: Values)
    requires SearchName(syntax.defs, name) == NotFound && EqualSign(name) == |name|
    ensures var r := Run(syntax, State(true, Cursor("", ["--" + name] + post, false), values));
            !r.valid && r.values == values
  {
    hide SearchName, EqualSign;
    DashArgument(name);
  }

  // After an option without a value, there is one more of it.
  lemma FlagIsLast(syntax: Syntax, name: string, def: OptionDef, pre: seq<string>)
    requires SearchName(syntax.defs, name) == Found(def) && EqualSign(name) == |name| && !def.hasValue
    requires Accepts(syntax, Begin(pre)) && !Run(syntax, Begin(pre)).cursor.force
    ensures var all := pre + ["--" + name];
            && Accepts(syntax, Begin(all))
            && OneMore(Run(syntax, Begin(pre)).values, Run(syntax, Begin(all)).values, def.name, Unset)
  {
    hide Step, Run, SearchName, EqualSign, StopsOnMissing, OneMore;
    var args := ["--" + name];
    assert pre + args + [] == pre + args && args + [] == args;
    AfterAccepted(syntax, pre, args, []);
    FlagAlone(syntax, name, def, Run(syntax, Begin(pre)).values);
  }

  lemma FlagAlone(syntax: Syntax, name: string, def: OptionDef, values: Values)
    requires SearchName(syntax.defs, name) == Found(def) && EqualSign(name) == |name| && !def.hasValue
    ensures var r := Run(syntax, State(true, Cursor("", ["--" + name], false), values));
            r.valid && AtEnd(r.cursor) && OneMore(values, r.values, def.name, Unset)
  {
    hide SearchName, EqualSign;
    LocateText(syntax, name);
    hide Locate;
  }

  // After a parameter, the values of the option without a name end with it. From then on,
  // all arguments are parameters if the syntax says so.
  lemma ParameterIsLast(syntax: Syntax, def: OptionDef, v: string, pre: seq<string>)
    requires SearchName(syntax.defs, "") == Found(def) && def.hasValue && !def.optional
    requires syntax.check(def.name, v).Accepted? && Accepts(syntax, Begin(pre))
    requires Run(syntax, Begin(pre)).cursor.force || v == "" || v[0] != '-'
    ensures var all := pre + [v];
            && Accepts(syntax, Begin(all)) && Run(syntax, Begin(all)).cursor.force == syntax.gather
            && OneMore(Run(syntax, Begin(pre)).values, Run(syntax, Begin(all)).values,
                       def.name, Text(syntax.check(def.name, v).stored))
  {
    hide SearchName, StopsOnMissing;
    var done := Run(syntax, Begin(pre));
    assert More(Begin(pre), [v]) == Begin(pre + [v]);
    RunWithMore(syntax, Begin(pre), [v]);
    var st := State(true, Cursor("", [v], done.cursor.force), done.values);
    assert Run(syntax, st) == Run(syntax, Step(syntax, st)) == Step(syntax, st);
  }

  // ----- When the loop ends -----

  // The state after n iterations, or at the end of the loop.
  function Steps(syntax: Syntax, st: State, n: nat): State
    decreases n
  {
    if n == 0 || Ended(st) then st else Steps(syntax, Step(syntax, st), n - 1)
  }

  // At a parameter that is not taken, the loop never ends: it stores a value at each
  // iteration.
  lemma {:induction false} StuckForever(syntax: Syntax, def: OptionDef, st: State, n: nat)
    requires Stuck(syntax, st) && (st.cursor.force ==> syntax.gather) && SearchName(syntax.defs, "") == Found(def)
    ensures Stuck(syntax, Steps(syntax, st, n)) && Steps(syntax, st, n).cursor.rest == st.cursor.rest
    ensures |Get(Steps(syntax, st, n).values, def.name)| == |Get(st.values, def.name)| + n
    decreases n
  {
    hide SearchName;
    if n > 0 {
      StuckForever(syntax, def, Step(syntax, st), n - 1);
    }
  }

  // Only the flag of the syntax forces arguments to be parameters.
  lemma ForceIsGather(syntax: Syntax, st: State)
    requires st.valid && !AtEnd(st.cursor) && (st.cursor.force ==> syntax.gather)
    ensures Step(syntax, st).cursor.force ==> syntax.gather
  {
    hide SearchName, SearchShort, EqualSign;
  }

  // The loop reaches the end of the run in some iterations, and is not at a parameter that
  // is not taken before.
  lemma {:induction false} RunIsReached(syntax: Syntax, st: State) returns (k: nat)
    requires st.cursor.force ==> syntax.gather
    ensures Steps(syntax, st, k) == Run(syntax, st) && (Run(syntax, st).cursor.force ==> syntax.gather)
    ensures forall n: nat :: n < k ==> !Ended(Steps(syntax, st, n)) && !Stuck(syntax, Steps(syntax, st, n))
    decreases st.valid, |st.cursor.rest|, |st.cursor.cluster|
  {
    hide Step, Stuck;
    if Ended(st) || Stuck(syntax, st) {
      k := 0;
    } else {
      StepShrinks(syntax, st);
      ForceIsGather(syntax, st);
      var m := RunIsReached(syntax, Step(syntax, st));
      k := m + 1;
      forall n: nat | n < k ensures !Ended(Steps(syntax, st, n)) && !Stuck(syntax, Steps(syntax, st, n)) {
        if n > 0 {
          assert Steps(syntax, st, n) == Steps(syntax, Step(syntax, st), n - 1);
        }
      }
    }
  }

  lemma {:induction false} MoreSteps(syntax: Syntax, st: State, m: nat, n: nat)
    ensures Steps(syntax, st, m + n) == Steps(syntax, Steps(syntax, st, m), n)
    decreases m
  {
    hide Step;
    if m > 0 && !Ended(st) {
      MoreSteps(syntax, Step(syntax, st), m - 1, n);
    }
  }

  ghost predicate LoopEnds(syntax: Syntax, st: State) {
    exists n: nat :: Ended(Steps(syntax, st, n))
  }

  // The loop ends if and only if parameters have a mandatory value or no parameter is
  // ever reached.
  lemma LoopEndsIff(syntax: Syntax, args: seq<string>)
    ensures LoopEnds(syntax, Begin(args)) <==> Ended(Run(syntax, Begin(args)))
    ensures LoopEnds(syntax, Begin(args))
       <==> PlainParameters(syntax) || forall n: nat :: !AtParameter(Steps(syntax, Begin(args), n))
  {
    hide Step, Run, PlainParameters;
    var st := Begin(args);
    var k := RunIsReached(syntax, st);
    var r := Run(syntax, st);
    RunStops(syntax, st);
    if Ended(r) {
      assert LoopEnds(syntax, st);
      if !PlainParameters(syntax) {
        forall n: nat ensures !AtParameter(Steps(syntax, st, n)) {
          if n >= k {
            MoreSteps(syntax, st, k, n - k);
          } else {
            assert !Stuck(syntax, Steps(syntax, st, n));
          }
        }
      }
    } else {
      NotPlain(syntax);
      var def := SearchName(syntax.defs, "").def;
      forall n: nat ensures !Ended(Steps(syntax, st, n)) {
        if n >= k {
          MoreSteps(syntax, st, k, n - k);
          StuckForever(syntax, def, r, n - k);
        }
      }
    }
  }

  lemma NotPlain(syntax: Syntax)
    ensures !PlainParameters(syntax) ==> SearchName(syntax.defs, "").Found?
  {
  }

  lemma {:induction false} RunStops(syntax: Syntax, st: State)
    ensures Ended(Run(syntax, st)) || Stuck(syntax, Run(syntax, st))
    decreases st.valid, |st.cursor.rest|, |st.cursor.cluster|
  {
    hide Step, Stuck;
    if !Ended(st) && !Stuck(syntax, st) {
      StepShrinks(syntax, st);
      RunStops(syntax, Step(syntax, st));
    }
  }

  // ----- The loop -----

  const NPOS := -1

  class Args {
    const syntax: Syntax
    var isValid: bool
    var args: seq<string>
    var values: Values

    constructor (syntax_: Syntax)
      ensures syntax == syntax_
    {
      syntax, isValid, args, values := syntax_, false, [], map[];
    }

    // What remains to be analyzed, from the indexes of the loop.
    ghost function Remaining(nextArg: int, shortArg: int, shortIndex: int, force: bool): Cursor
      requires InArgs(nextArg, shortArg, shortIndex)
      reads this
    {
      Cursor(if shortArg == NPOS then "" else args[shortArg][shortIndex..], args[nextArg..], force)
    }

    // A cluster that is not finished has letters left.
    ghost predicate InArgs(nextArg: int, shortArg: int, shortIndex: int)
      reads this
    {
      && 0 <= nextArg <= |args|
      && (shortArg == NPOS || (0 <= shortArg < |args| && 2 <= shortIndex < |args[shortArg]|))
    }

    method Analyze(arguments: seq<string>)
      requires ValidDefs(syntax.defs) && LoopEnds(syntax, Begin(arguments))
      modifies this
      ensures values == Run(syntax, Begin(arguments)).values
      ensures isValid <==> Run(syntax, Begin(arguments)).valid && forall d :: d in syntax.defs ==>
                d.minOccur <= |Get(values, d.name)| <= d.maxOccur
    {
      hide Step, PlainParameters, LoopEnds;
      LoopEndsIff(syntax, arguments);
      args, values := arguments, map[];
      isValid := true;
      var nextArg, shortArg, shortIndex, force := 0, NPOS, NPOS, false;
      assert args[0..] == args;
      while isValid && (shortArg != NPOS || nextArg < |args|)
        invariant InArgs(nextArg, shortArg, shortIndex)
        invariant Run(syntax, Begin(args))
                == Run(syntax, State(isValid, Remaining(nextArg, shortArg, shortIndex, force), values))
        invariant args == arguments
        decreases isValid, |args| - nextArg, |Remaining(nextArg, shortArg, shortIndex, force).cluster|
      {
        StepShrinks(syntax, State(true, Remaining(nextArg, shortArg, shortIndex, force), values));
        nextArg, shortArg, shortIndex, force := AnalyzeNext(nextArg, shortArg, shortIndex, force);
      }
      if isValid {
        CheckOccurrences();
      }
    }

    // The body of the loop: one option, with its value.
    method AnalyzeNext(nextArg: int, shortArg: int, shortIndex: int, force: bool)
      returns (nextArg': int, shortArg': int, shortIndex': int, force': bool)
      requires ValidDefs(syntax.defs) && isValid
      requires InArgs(nextArg, shortArg, shortIndex) && (shortArg != NPOS || nextArg < |args|)
      modifies this`isValid, this`values
      ensures InArgs(nextArg', shortArg', shortIndex')
      ensures State(isValid, Remaining(nextArg', shortArg', shortIndex', force'), values)
           == Step(syntax, State(true, old(Remaining(nextArg, shortArg, shortIndex, force)), old(values)))
    {
      hide Locate, Store;
      var found, val;
      found, val, nextArg', shortArg', shortIndex', force' := LocateOption(nextArg, shortArg, shortIndex, force);
      if found == NotFound {
        isValid := false;
        return;
      }
      var opt := found.def;
      if !opt.hasValue {
        if val.Text? {
          isValid := false;
        }
        values := Push(values, opt.name, val);
        return;
      }
      if shortArg' != NPOS {
        val := Text(args[shortArg'][shortIndex'..]);
        shortArg', shortIndex' := NPOS, NPOS;
      }
      if val.Unset? && !opt.optional {
        if nextArg' >= |args| {
          isValid := false;
          return;
        }
        val := Text(args[nextArg']);
        assert args[nextArg'..][1..] == args[nextArg' + 1..];
        nextArg' := nextArg' + 1;
      }
      PushValue(opt, val);
    }

    // Validate and store a value.
    method PushValue(opt: OptionDef, val: Value)
      requires isValid
      modifies this`isValid, this`values
      ensures forall c :: State(isValid, c, values) == Store(syntax, opt, val, State(true, c, old(values)))
    {
      match val {
        case Unset => values := Push(values, opt.name, val);
        case Text(text) =>
          match syntax.check(opt.name, text) {
            case Accepted(stored) => values := Push(values, opt.name, Text(stored));
            case Rejected => isValid := false;
          }
      }
    }

    method LocateOption(nextArg: int, shortArg: int, shortIndex: int, force: bool)
      returns (found: Found, val: Value, nextArg': int, shortArg': int, shortIndex': int, force': bool)
      requires ValidDefs(syntax.defs)
      requires InArgs(nextArg, shortArg, shortIndex) && (shortArg != NPOS || nextArg < |args|)
      ensures InArgs(nextArg', shortArg', shortIndex')
      ensures Located(found, val, Remaining(nextArg', shortArg', shortIndex', force'))
           == Locate(syntax, Remaining(nextArg, shortArg, shortIndex, force))
    {
      hide SearchName, SearchShort, EqualSign;
      val, nextArg', shortArg', shortIndex', force' := Unset, nextArg, shortArg, shortIndex, force;
      if shortArg != NPOS {
        assert args[shortArg][shortIndex..][1..] == args[shortArg][shortIndex + 1..];
        found := FindShort(syntax.defs, args[shortArg][shortIndex]);
        shortIndex' := shortIndex + 1;
        if shortIndex' >= |args[shortArg]| {
          shortArg', shortIndex' := NPOS, NPOS;
        }
        return;
      }
      var arg := args[nextArg];
      if force || arg == "" || arg[0] != '-' {
        found := FindName(syntax.defs, "");
        force' := syntax.gather;
        return;
      }
      assert args[nextArg..][1..] == args[nextArg + 1..];
      nextArg' := nextArg + 1;
      if |arg| == 1 {
        found := FindName(syntax.defs, "");
      } else if arg[1] == '-' {
        LongHasPrefix(arg);
        var equal := EqualSign(arg);
        if equal < |arg| {
          found := FindName(syntax.defs, arg[2..equal]);
          val := Text(arg[equal + 1..]);
        } else {
          found := FindName(syntax.defs, arg[2..]);
        }
      } else {
        found := FindShort(syntax.defs, arg[1]);
        if |arg| > 2 {
          shortArg', shortIndex' := nextArg, 2;
        }
      }
    }

    // Every option has an allowed number of values.
    method CheckOccurrences()
      requires isValid
      modifies this`isValid
      ensures isValid <==> forall d :: d in syntax.defs ==> d.minOccur <= |Get(values, d.name)| <= d.maxOccur
    {
      for it := 0 to |syntax.defs|
        invariant isValid <==> forall k :: 0 <= k < it ==>
                    syntax.defs[k].minOccur <= |Get(values, syntax.defs[k].name)| <= syntax.defs[k].maxOccur
      {
        var op := syntax.defs[it];
        if |Get(values, op.name)| < op.minOccur {
          isValid := false;
        } else if |Get(values, op.name)| > op.maxOccur {
          isValid := false;
        }
      }
    }
  }

  lemma LongHasPrefix(arg: string)
    requires |arg| >= 2 && arg[0] == '-' && arg[1] == '-'
    ensures EqualSign(arg) >= 2
  {
  }
}
