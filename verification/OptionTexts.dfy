/** The option parser, said of the texts on the command line. */
module OptionTexts {
  // "--name" and "-s", the words behind them, what is stored and what is complained of: nothing
  // here speaks of how the parser takes an argument apart.

  import opened Text
  import opened Takina
  import opened OptionGroups

  /** How an option is written: its long name behind two dashes, or its short name behind one. */
  predicate Spells(t: Tables, arg: string, name: string, k: string)
  {
    || (arg == "--" + name && name == k && k in t.long)
    || (arg == "-" + name && name != "" && name[0] != '-' && name in t.short && t.short[name] == k)
  }

  /** Something that looks like an option and is none. */
  predicate SpellsNothing(t: Tables, arg: string, name: string)
  {
    || (arg == "--" + name && name !in t.long)
    || (arg == "-" + name && name != "" && name[0] != '-' && name !in t.short)
  }

  /** The value a text has for an option of this type. */
  predicate HasValue(conv: Conversions, of: Scalar, text: string, d: Datum)
  {
    match of
    case StringType => d == StringDatum(text)
    case IntType => d.IntDatum? && conv.toInt(text) == Some(d.i)
    case DoubleType => d.DoubleDatum? && conv.toDouble(text) == Some(d.d)
  }

  predicate Valueless(conv: Conversions, of: Scalar, text: string)
  {
    match of
    case StringType => false
    case IntType => conv.toInt(text) == None
    case DoubleType => conv.toDouble(text) == None
  }

  predicate IsPlain(arg: string)
  {
    arg != "" && (arg[0] != '-' || arg == "-")
  }

  lemma ValueIs(conv: Conversions, of: Scalar, text: string, d: Datum)
    ensures HasValue(conv, of, text, d) <==> Convert(conv, of, text) == Some(d)
    ensures Valueless(conv, of, text) <==> Convert(conv, of, text) == None
  {
  }

  lemma SpelledIs(t: Tables, arg: string, name: string, k: string)
    requires Spells(t, arg, name, k)
    ensures IsOption(arg) && Resolve(t, arg) == Some(k) && OptionName(arg) == name
  {
    if arg == "--" + name && name == k && k in t.long {
      assert arg[2..] == name;
    } else {
      assert arg[1] == name[0] && arg[1..] == name;
    }
  }

  lemma SpelledNothing(t: Tables, arg: string, name: string)
    requires SpellsNothing(t, arg, name)
    ensures IsOption(arg) && Resolve(t, arg) == None && OptionName(arg) == name
  {
    if arg == "--" + name && name !in t.long {
      assert arg[2..] == name;
    } else {
      assert arg[1] == name[0] && arg[1..] == name;
    }
  }

  /** Every argument is one or the other: plain text, the spelling of an option, or of none. */
  lemma EveryArgument(t: Tables, arg: string)
    requires arg != ""
    ensures IsPlain(arg) || (exists name, k :: Spells(t, arg, name, k)) || (exists name :: SpellsNothing(t, arg, name))
    ensures IsPlain(arg) <==> !IsOption(arg)
  {
    if !IsPlain(arg) {
      if arg[1] == '-' {
        var name := arg[2..];
        assert arg == "--" + name;
        if name in t.long {
          assert Spells(t, arg, name, name);
        } else {
          assert SpellsNothing(t, arg, name);
        }
      } else {
        var name := arg[1..];
        assert arg == "-" + name;
        if name in t.short {
          assert Spells(t, arg, name, t.short[name]);
        } else {
          assert SpellsNothing(t, arg, name);
        }
      }
    }
  }

  // ---------------------------------------------------------- what is right

  /** How many texts an option takes at most, and at least. */
  function AtMost(kind: Kind, n: nat): nat
  {
    match kind
    case Unary(_) => 1
    case Fixed(_, size) => Max0(size)
    case _ => n
  }

  function AtLeast(kind: Kind): nat
  {
    match kind
    case Unary(_) => 1
    case Fixed(_, size) => Max0(size)
    case _ => 0
  }

  /** The text behind `n` others is not one too many, and has a value. */
  predicate RightAt(conv: Conversions, kind: Kind, most: nat, n: nat, text: string)
  {
    n < most && (kind.Void? || !Valueless(conv, kind.of, text))
  }

  /** The i-th text is the first that is one too many, or has no value. */
  predicate FirstWrong(conv: Conversions, kind: Kind, texts: seq<string>, i: int)
  {
    0 <= i < |texts| && Wrong(conv, kind, texts, i) && forall j :: 0 <= j < i ==> !Wrong(conv, kind, texts, j)
  }

  predicate Wrong(conv: Conversions, kind: Kind, texts: seq<string>, j: int)
    requires 0 <= j < |texts|
  {
    !RightAt(conv, kind, AtMost(kind, |texts|), j, texts[j])
  }

  predicate AllRight(conv: Conversions, kind: Kind, texts: seq<string>)
  {
    forall j :: 0 <= j < |texts| ==> !Wrong(conv, kind, texts, j)
  }

  /** What the option's variable holds after these texts, `ds` being their values. */
  function Holding(kind: Kind, v: Variable, ds: seq<Datum>): Variable
    requires Takina.Holds(v, kind) && AtLeast(kind) <= |ds| && |ds| <= AtMost(kind, |ds|)
  {
    match kind
    case Void => Flag(true)
    case Unary(_) => One(ds[0])
    case Multiple(_) => Many(v.data + ds)
    case Fixed(_, _) => Cells(ds + v.cells[|ds|..])
  }

  predicate Values(conv: Conversions, kind: Kind, texts: seq<string>, ds: seq<Datum>)
  {
    |ds| == |texts| && (kind.Void? || forall i :: 0 <= i < |texts| ==> HasValue(conv, kind.of, texts[i], ds[i]))
  }

  lemma RightFits(conv: Conversions, kind: Kind, texts: seq<string>)
    ensures AtLeast(kind) <= |texts| && AllRight(conv, kind, texts) <==> Fits(conv, kind, texts)
  {
    hide Convert, Valueless;
    forall j | 0 <= j < |texts| && !kind.Void?
      ensures Valueless(conv, kind.of, texts[j]) <==> Convert(conv, kind.of, texts[j]) == None
    {
      ValueIs(conv, kind.of, texts[j], StringDatum(""));
    }
    if AtLeast(kind) <= |texts| && AllRight(conv, kind, texts) {
      assert |texts| > AtMost(kind, |texts|) ==> Wrong(conv, kind, texts, AtMost(kind, |texts|));
      if !kind.Void? {
        forall i | 0 <= i < |texts|
          ensures Convert(conv, kind.of, texts[i]).Some?
        {
          assert !Wrong(conv, kind, texts, i);
        }
      }
    }
  }

  lemma StoredIsHolding(conv: Conversions, kind: Kind, v: Variable, texts: seq<string>, ds: seq<Datum>)
    requires Takina.Holds(v, kind) && Fits(conv, kind, texts) && Values(conv, kind, texts, ds)
    ensures AtLeast(kind) <= |ds| && |ds| <= AtMost(kind, |ds|)
    ensures Stored(conv, kind, v, texts) == Holding(kind, v, ds)
  {
    hide Convert, HasValue;
    if !kind.Void? {
      forall i | 0 <= i < |texts|
        ensures Convert(conv, kind.of, texts[i]) == Some(ds[i])
      {
        ValueIs(conv, kind.of, texts[i], ds[i]);
      }
      assert ConvertAll(conv, kind.of, texts) == ds;
    }
  }

  // ------------------------------------------------------------ the outcome

  /** From the `done`-th text on: the i-th of the rest is the first that is wrong. */
  lemma {:induction false} WrongEnds(t: Tables, conv: Conversions, vars: Variables, c: Cursor, texts: seq<string>, rest: seq<string>, i: nat, most: nat)
    requires Valid(t, vars) && c.current.Some? && c.current.value in t.long && i < |texts|
    requires forall j :: 0 <= j < |texts| ==> IsPlain(texts[j])
    requires most == AtMost(t.long[c.current.value].kind, c.num + |texts|)
    requires var kind := t.long[c.current.value].kind;
             && (forall j :: 0 <= j < i ==> RightAt(conv, kind, most, c.num + j, texts[j]))
             && !RightAt(conv, kind, most, c.num + i, texts[i])
    ensures Run(t, conv, vars, c, texts + rest).0 == Rejected(if c.num + i >= most then TooMany else BadValue, c.option)
    decreases |texts|
  {
    hide Valid, Valueless, Convert;
    var k := c.current.value;
    var kind := t.long[k].kind;
    VariableFits(t, vars, k);
    EveryArgument(t, texts[0]);
    assert (texts + rest)[0] == texts[0] && (texts + rest)[1..] == texts[1..] + rest;
    if !kind.Void? {
      ValueIs(conv, kind.of, texts[0], StringDatum(""));
    }
    if i > 0 {
      var r := SetParameter(conv, kind, vars[k], c.num + 1, texts[0]);
      KeepsValid(t, vars, k, r.v);
      forall j | 0 <= j < i - 1
        ensures RightAt(conv, kind, most, c.num + 1 + j, texts[1..][j])
      {
        assert texts[1..][j] == texts[j + 1] && RightAt(conv, kind, most, c.num + (j + 1), texts[j + 1]);
      }
      WrongEnds(t, conv, vars[k := r.v], c.(num := c.num + 1), texts[1..], rest, i - 1, most);
    }
  }

  /** An option as it is written, with the texts behind it, met where nothing is lacking. */
  lemma OneOption(t: Tables, conv: Conversions, vars: Variables, c: Cursor, arg: string, name: string, k: string,
                  texts: seq<string>, ds: seq<Datum>, rest: seq<string>)
    requires Valid(t, vars) && (c.current.Some? ==> c.current.value in t.long) && !Lacks(t, c)
    requires Spells(t, arg, name, k) && k in t.long && (rest == [] || !IsPlain(rest[0])) && "" !in rest
    requires forall j :: 0 <= j < |texts| ==> IsPlain(texts[j])
    ensures k in vars && Takina.Holds(vars[k], t.long[k].kind)
    ensures var kind, o := t.long[k].kind, Run(t, conv, vars, c, [arg] + texts + rest);
            if t.long[k].isHelp then o == (Help, vars[k := Flag(true)])
            else if AllRight(conv, kind, texts) && AtLeast(kind) <= |texts| then
              Values(conv, kind, texts, ds) ==>
                && AtLeast(kind) <= |ds| <= AtMost(kind, |ds|)
                && var vars', end := vars[k := Holding(kind, vars[k], ds)], Cursor(Some(k), name, |texts|);
                   Valid(t, vars') && !Lacks(t, end) && o == Run(t, conv, vars', end, rest)
            else if AllRight(conv, kind, texts) then o.0 == Rejected(TooFew, name)
            else exists i :: FirstWrong(conv, kind, texts, i)
                   && o.0 == Rejected(if i >= AtMost(kind, |texts|) then TooMany else BadValue, name)
  {
    hide Valid, Fits, Run, Lacks, Convert, Stored, Resolve, OptionName, Valueless, HasValue;
    SpelledIs(t, arg, name, k);
    VariableFits(t, vars, k);
    var args := [arg] + texts + rest;
    assert args[0] == arg && args[1..] == texts + rest;
    OptionRuns(t, conv, vars, c, args, name, k);
    var kind := t.long[k].kind;
    if !t.long[k].isHelp {
      var marked := if kind == Void then vars[k := Flag(true)] else vars;
      RightFits(conv, kind, texts);
      PlainRest(texts, rest);
      if AllRight(conv, kind, texts) {
        TextsRight(t, conv, vars, marked, k, name, texts, ds, rest);
      } else {
        var i := FindWrong(conv, kind, texts);
        forall j | 0 <= j < i
          ensures RightAt(conv, kind, AtMost(kind, |texts|), 0 + j, texts[j])
        {
          assert !Wrong(conv, kind, texts, j);
        }
        WrongEnds(t, conv, marked, Cursor(Some(k), name, 0), texts, rest, i, AtMost(kind, |texts|));
      }
    }
  }

  lemma PlainRest(texts: seq<string>, rest: seq<string>)
    requires rest == [] || !IsPlain(rest[0])
    requires forall j :: 0 <= j < |texts| ==> IsPlain(texts[j])
    requires "" !in rest
    ensures Starts(rest) && forall j :: 0 <= j < |texts| ==> !IsOption(texts[j]) && texts[j] != ""
  {
    if rest != [] {
      assert rest[0] in rest;
    }
  }

  lemma HelpIsVoid(t: Tables, vars: Variables, k: string)
    requires Valid(t, vars) && k in t.long && t.long[k].isHelp
    ensures t.long[k].kind == Void
  {
  }

  /** The option itself. */
  lemma OptionRuns(t: Tables, conv: Conversions, vars: Variables, c: Cursor, args: seq<string>, name: string, k: string)
    requires Valid(t, vars) && (c.current.Some? ==> c.current.value in t.long) && !Lacks(t, c)
    requires args != [] && IsOption(args[0]) && Resolve(t, args[0]) == Some(k) && OptionName(args[0]) == name && k in t.long
    ensures if t.long[k].isHelp then Run(t, conv, vars, c, args) == (Help, vars[k := Flag(true)])
            else
              var marked := if t.long[k].kind == Void then vars[k := Flag(true)] else vars;
              Valid(t, marked) && Run(t, conv, vars, c, args) == Run(t, conv, marked, Cursor(Some(k), name, 0), args[1..])
  {
    hide Valid, Resolve, OptionName;
    if t.long[k].isHelp {
      HelpIsVoid(t, vars, k);
    }
    if t.long[k].kind == Void {
      KeepsValid(t, vars, k, Flag(true));
    }
  }

  lemma {:induction false} FindWrong(conv: Conversions, kind: Kind, texts: seq<string>) returns (i: nat)
    requires !AllRight(conv, kind, texts)
    ensures i < |texts| && FirstWrong(conv, kind, texts, i)
  {
    hide Wrong;
    i := 0;
    while !Wrong(conv, kind, texts, i)
      invariant i < |texts| && forall j :: 0 <= j < i ==> !Wrong(conv, kind, texts, j)
      invariant exists j :: i <= j < |texts| && Wrong(conv, kind, texts, j)
      decreases |texts| - i
    {
      i := i + 1;
    }
    WrongIs(conv, kind, texts, i);
  }

  lemma WrongIs(conv: Conversions, kind: Kind, texts: seq<string>, i: nat)
    requires i < |texts| && Wrong(conv, kind, texts, i) && forall j :: 0 <= j < i ==> !Wrong(conv, kind, texts, j)
    ensures FirstWrong(conv, kind, texts, i)
  {
  }

  /** Texts of which none is wrong. */
  lemma TextsRight(t: Tables, conv: Conversions, vars: Variables, marked: Variables, k: string, name: string,
                   texts: seq<string>, ds: seq<Datum>, rest: seq<string>)
    requires Valid(t, vars) && Valid(t, marked) && k in t.long && Starts(rest) && k in vars && Takina.Holds(vars[k], t.long[k].kind)
    requires marked == (if t.long[k].kind == Void then vars[k := Flag(true)] else vars)
    requires forall j :: 0 <= j < |texts| ==> !IsOption(texts[j]) && texts[j] != ""
    requires AllRight(conv, t.long[k].kind, texts)
    ensures var kind, o := t.long[k].kind, Run(t, conv, marked, Cursor(Some(k), name, 0), texts + rest);
            if AtLeast(kind) <= |texts| then
              Values(conv, kind, texts, ds) ==>
                && AtLeast(kind) <= |ds| <= AtMost(kind, |ds|)
                && var vars', end := vars[k := Holding(kind, vars[k], ds)], Cursor(Some(k), name, |texts|);
                   Valid(t, vars') && !Lacks(t, end) && o == Run(t, conv, vars', end, rest)
            else o.0 == Rejected(TooFew, name)
  {
    hide Valid, Run, Convert, Valueless, HasValue;
    var kind := t.long[k].kind;
    VariableFits(t, marked, k);
    RightFits(conv, kind, texts);
    if AtLeast(kind) <= |texts| {
      ValuesPass(t, conv, marked, k, name, texts, rest);
      if Values(conv, kind, texts, ds) {
        StoredIsHolding(conv, kind, marked[k], texts, ds);
        assert marked[k := Stored(conv, kind, marked[k], texts)] == vars[k := Holding(kind, vars[k], ds)];
      }
    } else {
      RightContinues(conv, kind, texts);
      RunValues(t, conv, marked, Cursor(Some(k), name, 0), texts, rest);
      LacksEnds(t, conv, marked[k := PutAll(conv, kind, marked[k], 0, texts)], Cursor(Some(k), name, |texts|), rest);
    }
  }

  lemma RightContinues(conv: Conversions, kind: Kind, texts: seq<string>)
    requires AllRight(conv, kind, texts)
    ensures Continues(conv, kind, 0, texts)
  {
    hide Convert, Valueless;
    assert |texts| > 0 ==> !Wrong(conv, kind, texts, |texts| - 1);
    if !kind.Void? {
      forall i | 0 <= i < |texts|
        ensures Convert(conv, kind.of, texts[i]).Some?
      {
        assert !Wrong(conv, kind, texts, i);
        ValueIs(conv, kind.of, texts[i], StringDatum(""));
      }
    }
  }

  /** What looks like an option and is none is named in the complaint, whatever follows. */
  lemma NoSuchOption(t: Tables, conv: Conversions, vars: Variables, c: Cursor, arg: string, name: string, rest: seq<string>)
    requires Valid(t, vars) && (c.current.Some? ==> c.current.value in t.long) && !Lacks(t, c) && SpellsNothing(t, arg, name)
    ensures Run(t, conv, vars, c, [arg] + rest) == (Rejected(UnknownOption, name), vars)
  {
    hide Valid;
    SpelledNothing(t, arg, name);
    assert ([arg] + rest)[0] == arg;
  }

  /** A text in front of every option has no option to go to, and an empty argument trips the
      assertion wherever it stands. */
  lemma NoOptionYet(t: Tables, conv: Conversions, vars: Variables, c: Cursor, text: string, rest: seq<string>)
    requires Valid(t, vars) && (c.current.Some? ==> c.current.value in t.long)
    ensures IsPlain(text) ==> Run(t, conv, vars, START, [text] + rest) == (Fault, vars)
    ensures Run(t, conv, vars, c, [""] + rest) == (Fault, vars)
  {
    hide Valid;
    assert ([text] + rest)[0] == text && ([""] + rest)[0] == "";
    if IsPlain(text) {
      EveryArgument(t, text);
    }
  }

  /** "--help", once it is registered as the library does, shows the help text. */
  lemma HelpShown(t: Tables, conv: Conversions, vars: Variables, rest: seq<string>)
    requires Valid(t, vars) && "help" in t.long && t.long["help"] == Parameter(Void, true)
    ensures Run(t, conv, vars, START, ["--help"] + rest) == (Help, vars["help" := Flag(true)])
  {
    hide Valid, Resolve, OptionName;
    assert "--" + "help" == "--help";
    SpelledIs(t, "--help", "help", "help");
    OptionRuns(t, conv, vars, START, ["--help"] + rest, "help", "help");
  }

  // ------------------------------------------------------- a whole command line

  /** An option as written, its name, the variable it is for, and the texts behind it with their values. */
  datatype Written = Written(arg: string, name: string, k: string, texts: seq<string>, ds: seq<Datum>)

  ghost predicate GoodOption(t: Tables, conv: Conversions, w: Written)
  {
    && Spells(t, w.arg, w.name, w.k) && w.k in t.long && !t.long[w.k].isHelp
    && (forall j :: 0 <= j < |w.texts| ==> IsPlain(w.texts[j]))
    && AllRight(conv, t.long[w.k].kind, w.texts) && AtLeast(t.long[w.k].kind) <= |w.texts|
    && Values(conv, t.long[w.k].kind, w.texts, w.ds)
  }

  function CommandLine(ws: seq<Written>): seq<string>
    decreases |ws|
  {
    if ws == [] then [] else [ws[0].arg] + ws[0].texts + CommandLine(ws[1..])
  }

  /** The variable of `k` once every option has had its turn. */
  function HoldingAll(kind: Kind, v: Variable, ws: seq<Written>, k: string): (r: Variable)
    requires Takina.Holds(v, kind) && forall w :: w in ws && w.k == k ==> AtLeast(kind) <= |w.ds| <= AtMost(kind, |w.ds|)
    ensures Takina.Holds(r, kind)
    decreases |ws|
  {
    if ws == [] then v
    else if ws[0].k == k then
      assert ws[0] in ws;
      HoldingAll(kind, Holding(kind, v, ws[0].ds), ws[1..], k)
    else HoldingAll(kind, v, ws[1..], k)
  }

  lemma SameCount(conv: Conversions, kind: Kind, texts: seq<string>, ds: seq<Datum>)
    requires Values(conv, kind, texts, ds)
    ensures |ds| == |texts|
  {
  }

  lemma GoodCounts(t: Tables, conv: Conversions, w: Written)
    requires GoodOption(t, conv, w)
    ensures AtLeast(t.long[w.k].kind) <= |w.ds| <= AtMost(t.long[w.k].kind, |w.ds|)
  {
    hide Spells, Values;
    RightFits(conv, t.long[w.k].kind, w.texts);
    SameCount(conv, t.long[w.k].kind, w.texts, w.ds);
  }

  lemma AllCount(t: Tables, conv: Conversions, ws: seq<Written>, k: string)
    requires k in t.long && forall w :: w in ws ==> GoodOption(t, conv, w)
    ensures forall w :: w in ws && w.k == k ==> AtLeast(t.long[k].kind) <= |w.ds| <= AtMost(t.long[k].kind, |w.ds|)
  {
    hide GoodOption;
    forall w | w in ws && w.k == k
      ensures AtLeast(t.long[k].kind) <= |w.ds| <= AtMost(t.long[k].kind, |w.ds|)
    {
      GoodCounts(t, conv, w);
    }
  }

  lemma CommandStarts(t: Tables, conv: Conversions, ws: seq<Written>)
    requires forall w :: w in ws ==> GoodOption(t, conv, w)
    ensures "" !in CommandLine(ws) && (CommandLine(ws) == [] || !IsPlain(CommandLine(ws)[0]))
    decreases |ws|
  {
    hide AllRight, Values;
    if ws != [] {
      var w := ws[0];
      assert w in ws && forall v :: v in ws[1..] ==> v in ws;
      CommandStarts(t, conv, ws[1..]);
      SpelledIs(t, w.arg, w.name, w.k);
      EveryArgument(t, w.arg);
      var args := [w.arg] + w.texts + CommandLine(ws[1..]);
      assert args[0] == w.arg;
      forall x | x in args
        ensures x != ""
      {
        if x in w.texts {
          var j :| 0 <= j < |w.texts| && w.texts[j] == x;
          assert IsPlain(w.texts[j]);
        }
      }
    }
  }

  lemma {:induction false} LineFrom(t: Tables, conv: Conversions, vars: Variables, c: Cursor, ws: seq<Written>, k: string)
    requires Valid(t, vars) && (c.current.Some? ==> c.current.value in t.long) && !Lacks(t, c) && k in t.long
    requires forall w :: w in ws ==> GoodOption(t, conv, w)
    ensures forall w :: w in ws && w.k == k ==> AtLeast(t.long[k].kind) <= |w.ds| <= AtMost(t.long[k].kind, |w.ds|)
    ensures k in vars && Takina.Holds(vars[k], t.long[k].kind)
    ensures var o := Run(t, conv, vars, c, CommandLine(ws));
            o.0 == Accepted && k in o.1 && o.1[k] == HoldingAll(t.long[k].kind, vars[k], ws, k)
    decreases |ws|
  {
    hide Valid, Lacks, Holding, AllRight, Values, Spells, AtLeast, AtMost;
    AllCount(t, conv, ws, k);
    VariableFits(t, vars, k);
    if ws != [] {
      var w := ws[0];
      assert w in ws && forall v :: v in ws[1..] ==> v in ws;
      assert GoodOption(t, conv, w);
      var rest := CommandLine(ws[1..]);
      CommandStarts(t, conv, ws[1..]);
      OneOption(t, conv, vars, c, w.arg, w.name, w.k, w.texts, w.ds, rest);
      var vars' := vars[w.k := Holding(t.long[w.k].kind, vars[w.k], w.ds)];
      LineFrom(t, conv, vars', Cursor(Some(w.k), w.name, |w.texts|), ws[1..], k);
    }
  }

  /** Any command line of options as they are written, long or short, each with the texts it may have:
      it is accepted, and every variable holds what its own options' values make of it. */
  lemma LineParses(t: Tables, conv: Conversions, vars: Variables, ws: seq<Written>, k: string)
    requires Valid(t, vars) && k in t.long && forall w :: w in ws ==> GoodOption(t, conv, w)
    ensures forall w :: w in ws && w.k == k ==> AtLeast(t.long[k].kind) <= |w.ds| <= AtMost(t.long[k].kind, |w.ds|)
    ensures k in vars && Takina.Holds(vars[k], t.long[k].kind)
    ensures var o := Run(t, conv, vars, START, CommandLine(ws));
            o.0 == Accepted && k in o.1 && o.1[k] == HoldingAll(t.long[k].kind, vars[k], ws, k)
  {
    LineFrom(t, conv, vars, START, ws, k);
  }
}
