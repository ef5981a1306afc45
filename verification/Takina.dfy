/** takina, the command-line parser: one pass over the arguments with a current option and a
    count, and the grouping of arguments under options that it amounts to. */
module Takina {
  import opened Text

  // --------------------------------------------------------------- options

  datatype Scalar = StringType | IntType | DoubleType

  /** OT_VOID, the unary, the multiple (M) and the fixed (F) types. */
  datatype Kind = Void | Unary(of: Scalar) | Multiple(of: Scalar) | Fixed(of: Scalar, size: int)

  datatype Datum = StringDatum(s: string) | IntDatum(i: int) | DoubleDatum(d: real)

  /** The user's variable behind an option; a fixed option writes into an array. */
  datatype Variable = Flag(on: bool) | One(datum: Datum) | Many(data: seq<Datum>) | Cells(cells: seq<Datum>)

  type Variables = map<string, Variable>

  /** `isHelp`: the variable is has_help. */
  datatype Parameter = Parameter(kind: Kind, isHelp: bool)

  /** long_param_map, and short_param_map as references into it. */
  datatype Tables = Tables(long: map<string, Parameter>, short: map<string, string>)

  /** strtol and strtod, None where they convert nothing. */
  datatype Conversions = Conversions(toInt: string -> Option<int>, toDouble: string -> Option<real>)

  datatype Complaint = UnknownOption | TooFew | TooMany | BadValue

  /** `Help` is exit(0) after the help text; `Fault` the failed assertion on an empty argument, or
      the null current option of an argument that comes before any option. */
  datatype Outcome = Accepted | Rejected(why: Complaint, option: string) | Help | Fault

  datatype Cursor = Cursor(current: Option<string>, option: string, num: nat)

  const START := Cursor(None, "", 0)

  predicate Holds(v: Variable, kind: Kind)
  {
    match kind
    case Void => v.Flag?
    case Unary(_) => v.One?
    case Multiple(_) => v.Many?
    case Fixed(_, size) => v.Cells? && size <= |v.cells|
  }

  ghost predicate Valid(t: Tables, vars: Variables)
  {
    && (forall s :: s in t.short ==> t.short[s] in t.long)
    && (forall k :: k in t.long ==> k in vars && Holds(vars[k], t.long[k].kind) && (t.long[k].isHelp ==> t.long[k].kind == Void))
  }

  predicate IsOption(arg: string)
  {
    |arg| > 1 && arg[0] == '-'
  }

  function OptionName(arg: string): string
    requires IsOption(arg)
  {
    if arg[1] == '-' then arg[2..] else arg[1..]
  }

  /** The long name of the option an argument names. */
  function Resolve(t: Tables, arg: string): Option<string>
    requires IsOption(arg)
  {
    var name := OptionName(arg);
    if arg[1] == '-' then (if name in t.long then Some(name) else None)
    else if name in t.short then Some(t.short[name]) else None
  }

  function Convert(conv: Conversions, of: Scalar, arg: string): Option<Datum>
  {
    match of
    case StringType => Some(StringDatum(arg))
    case IntType => (match conv.toInt(arg) case None => None case Some(i) => Some(IntDatum(i)))
    case DoubleType => (match conv.toDouble(arg) case None => None case Some(d) => Some(DoubleDatum(d)))
  }

  // ---------------------------------------------------------------- as coded

  /** !CheckArgumentIsLess: the current option has had too few arguments. */
  predicate Lacks(t: Tables, c: Cursor)
    requires c.current.Some? ==> c.current.value in t.long
  {
    c.current.Some? &&
    match t.long[c.current.value].kind
    case Unary(_) => c.num == 0
    case Fixed(_, size) => c.num < size
    case _ => false
  }

  datatype Progress = Go(vars: Variables, cursor: Cursor) | Stop(outcome: Outcome, vars: Variables)

  /** One argument that is not an option, the `num`th of the current option. */
  function SetParameter(conv: Conversions, kind: Kind, v: Variable, num: nat, arg: string): (r: Result)
    requires Holds(v, kind) && num > 0
    ensures r.Set? ==> Holds(r.v, kind)
  {
    match kind
    case Void => Set(v)
    case Unary(of) =>
      if num > 1 then Complain(TooMany)
      else if Convert(conv, of, arg).None? then Complain(BadValue)
      else Set(One(Convert(conv, of, arg).value))
    case Multiple(of) =>
      if Convert(conv, of, arg).None? then Complain(BadValue)
      else Set(Many(v.data + [Convert(conv, of, arg).value]))
    case Fixed(of, size) =>
      if num > size then Complain(TooMany)
      else if Convert(conv, of, arg).None? then Complain(BadValue)
      else Set(Cells(v.cells[num - 1 := Convert(conv, of, arg).value]))
  }

  datatype Result = Set(v: Variable) | Complain(why: Complaint)

  function Step(t: Tables, conv: Conversions, vars: Variables, c: Cursor, arg: string): (p: Progress)
    requires Valid(t, vars) && (c.current.Some? ==> c.current.value in t.long)
    ensures Valid(t, p.vars)
    ensures p.Go? ==> p.cursor.current.Some? && p.cursor.current.value in t.long
  {
    if arg == "" then Stop(Fault, vars)
    else if IsOption(arg) then
      if Lacks(t, c) then Stop(Rejected(TooFew, c.option), vars) else
      match Resolve(t, arg)
      case None => Stop(Rejected(UnknownOption, OptionName(arg)), vars)
      case Some(k) =>
        var marked := if t.long[k].kind == Void then vars[k := Flag(true)] else vars;
        if t.long[k].isHelp then Stop(Help, marked) else Go(marked, Cursor(Some(k), OptionName(arg), 0))
    else if c.current.None? then Stop(Fault, vars)
    else
      var k := c.current.value;
      match SetParameter(conv, t.long[k].kind, vars[k], c.num + 1, arg)
      case Complain(why) => Stop(Rejected(why, c.option), vars)
      case Set(v) => Go(vars[k := v], c.(num := c.num + 1))
  }

  /** The loop over argv and the last check. */
  function Run(t: Tables, conv: Conversions, vars: Variables, c: Cursor, args: seq<string>): (r: (Outcome, Variables))
    requires Valid(t, vars) && (c.current.Some? ==> c.current.value in t.long)
    ensures Valid(t, r.1)
    decreases |args|
  {
    if args == [] then (if Lacks(t, c) then Rejected(TooFew, c.option) else Accepted, vars) else
    match Step(t, conv, vars, c, args[0])
    case Stop(o, vars') => (o, vars')
    case Go(vars', c') => Run(t, conv, vars', c', args[1..])
  }

  /** The library's globals and the variables it was given. */
  class Options {
    var long: map<string, Parameter>
    var short: map<string, string>
    var vars: Variables

    constructor ()
      ensures Inv() && long == map[] && short == map[]
    {
      long, short, vars := map[], map[], map[];
    }

    ghost predicate Inv()
      reads this
    {
      Valid(Tables(long, short), vars)
    }

    /** AddOption: a long name registers once, a short name once. `variable` is what the caller's
        variable holds, `bound` whether that is the very variable the name is registered with. A flag
        is cleared first, whether or not anything is registered; `left` is what the caller's variable
        then holds. */
    method AddOption(shortName: string, longName: string, parameter: Parameter, variable: Variable, bound: bool) returns (left: Variable)
      requires Inv() && Holds(variable, parameter.kind) && (parameter.isHelp ==> parameter.kind == Void)
      requires bound ==> longName in long && vars[longName] == variable && long[longName].kind == parameter.kind
      modifies this
      ensures Inv()
      ensures left == if parameter.kind == Void then Flag(false) else variable
      ensures if longName == "" || longName in old(long) then
                && long == old(long) && short == old(short)
                && vars == if bound then old(vars)[longName := left] else old(vars)
              else
                && long == old(long)[longName := parameter] && vars == old(vars)[longName := left]
                && short == if shortName == "" || shortName in old(short) then old(short) else old(short)[shortName := longName]
    {
      left := variable;
      if parameter.kind == Void {
        left := Flag(false);
        if bound {
          vars := vars[longName := left];
        }
      }
      if longName == "" || longName in long {
        return;
      }
      long := long[longName := parameter];
      vars := vars[longName := left];
      if shortName != "" && shortName !in short {
        short := short[shortName := longName];
      }
    }

    /** The part of _GenHelp that registers --help and clears has_help, which may be registered from
        an earlier call. */
    method AddHelp()
      requires Inv()
      modifies this
      ensures Inv() && short == old(short)
      ensures long == if "help" in old(long) then old(long) else old(long)["help" := Parameter(Void, true)]
      ensures vars == if "help" in old(long) && !old(long)["help"].isHelp then old(vars) else old(vars)["help" := Flag(false)]
    {
      var bound := "help" in long && long["help"].isHelp;
      var _ := AddOption("", "help", Parameter(Void, true), if bound then vars["help"] else Flag(false), bound);
    }

    method Parse(args: seq<string>, conv: Conversions) returns (outcome: Outcome)
      requires Inv()
      modifies this
      ensures Inv() && short == old(short)
      ensures long == if "help" in old(long) then old(long) else old(long)["help" := Parameter(Void, true)]
      ensures var cleared := if "help" in old(long) && !old(long)["help"].isHelp then old(vars) else old(vars)["help" := Flag(false)];
              Valid(Tables(long, short), cleared) && (outcome, vars) == Run(Tables(long, short), conv, cleared, START, args)
    {
      AddHelp();
      ghost var cleared := vars;
      ghost var t := Tables(long, short);
      var current: Option<string> := None;
      var option, num: nat := "", 0;
      var i := 0;
      while i < |args|
        invariant 0 <= i <= |args|
        invariant Tables(long, short) == t && Inv() && (current.Some? ==> current.value in long)
        invariant Run(t, conv, vars, Cursor(current, option, num), args[i..]) == Run(t, conv, cleared, START, args)
      {
        hide Valid, Run, Step;
        assert args[i..][0] == args[i] && args[i..][1..] == args[i + 1..];
        RunStep(t, conv, vars, Cursor(current, option, num), args[i..]);
        var stop: Option<Outcome>;
        stop, current, option, num := ParseArgument(args[i], conv, current, option, num);
        if stop.Some? {
          return stop.value;
        }
        i := i + 1;
      }
      if IsLess(current, num) {
        return Rejected(TooFew, option);
      }
      return Accepted;
    }

    /** The body of the loop; `stop` is the outcome it returns with, if it does. */
    method ParseArgument(arg: string, conv: Conversions, current: Option<string>, option: string, num: nat)
      returns (stop: Option<Outcome>, current': Option<string>, option': string, num': nat)
      requires Inv() && (current.Some? ==> current.value in long)
      modifies this`vars
      ensures Inv()
      ensures Step(Tables(long, short), conv, old(vars), Cursor(current, option, num), arg) ==
              if stop.Some? then Stop(stop.value, vars) else Go(vars, Cursor(current', option', num'))
    {
      hide Valid, SetParameter, OptionName, Holds;
      current', option', num' := current, option, num;
      ghost var t := Tables(long, short);
      if arg == "" {
        stop := Some(Fault);
        return;
      }
      if IsOption(arg) {
        if IsLess(current, num) {
          stop := Some(Rejected(TooFew, option));
          return;
        }
        num' := 0;
        option' := OptionName(arg);
        var key: string;
        if arg[1] == '-' {
          if option' !in long {
            stop := Some(Rejected(UnknownOption, option'));
            return;
          }
          key := option';
        } else {
          if option' !in short {
            stop := Some(Rejected(UnknownOption, option'));
            return;
          }
          ShortIsKnown(t, vars, option');
          key := short[option'];
        }
        current' := Some(key);
        if long[key].kind == Void {
          KeepsValid(t, vars, key, Flag(true));
          vars := vars[key := Flag(true)];
        }
        stop := if long[key].isHelp then Some(Help) else None;
      } else {
        if current.None? {
          stop := Some(Fault);
          return;
        }
        num' := num + 1;
        VariableFits(t, vars, current.value);
        match SetParameter(conv, long[current.value].kind, vars[current.value], num', arg) {
          case Complain(why) =>
            stop := Some(Rejected(why, option));
          case Set(v) =>
            KeepsValid(t, vars, current.value, v);
            vars := vars[current.value := v];
            stop := None;
        }
      }
    }

    predicate IsLess(current: Option<string>, num: nat)
      requires current.Some? ==> current.value in long
      reads this
    {
      Lacks(Tables(long, short), Cursor(current, "", num))
    }
  }

  lemma RunStep(t: Tables, conv: Conversions, vars: Variables, c: Cursor, args: seq<string>)
    requires Valid(t, vars) && (c.current.Some? ==> c.current.value in t.long) && args != []
    ensures var p := Step(t, conv, vars, c, args[0]);
            Run(t, conv, vars, c, args) == if p.Stop? then (p.outcome, p.vars) else Run(t, conv, p.vars, p.cursor, args[1..])
  {
  }

  lemma ShortIsKnown(t: Tables, vars: Variables, s: string)
    requires Valid(t, vars) && s in t.short
    ensures t.short[s] in t.long
  {
  }

  lemma VariableFits(t: Tables, vars: Variables, k: string)
    requires Valid(t, vars) && k in t.long
    ensures k in vars && Holds(vars[k], t.long[k].kind)
  {
  }

  lemma KeepsValid(t: Tables, vars: Variables, k: string, v: Variable)
    requires Valid(t, vars) && k in t.long && Holds(v, t.long[k].kind)
    ensures Valid(t, vars[k := v])
  {
  }
}
