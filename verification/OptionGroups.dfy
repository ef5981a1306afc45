/** What the option parser accepts and stores. */
module OptionGroups {
  // Said without a current option or a count: the arguments split into groups, an option and the
  // arguments behind it.

  import opened Text
  import opened Takina

  datatype Group = Group(option: string, values: seq<string>)

  /** How many arguments come before the next option. */
  function Plain(args: seq<string>): (n: nat)
    ensures n <= |args| && (n < |args| ==> IsOption(args[n]))
    ensures forall i :: 0 <= i < n ==> !IsOption(args[i])
    decreases |args|
  {
    if args == [] || IsOption(args[0]) then 0 else 1 + Plain(args[1..])
  }

  predicate Starts(args: seq<string>)
  {
    args == [] || IsOption(args[0])
  }

  function Groups(args: seq<string>): (gs: seq<Group>)
    requires Starts(args)
    ensures forall g :: g in gs ==> IsOption(g.option)
    decreases |args|
  {
    if args == [] then [] else
    var n := Plain(args[1..]);
    [Group(args[0], args[1..n + 1])] + Groups(args[n + 1..])
  }

  // ------------------------------------------------------- what is accepted

  function Max0(n: int): nat
  {
    if n < 0 then 0 else n
  }

  predicate RightNumber(kind: Kind, n: nat)
  {
    match kind
    case Void => true
    case Multiple(_) => true
    case Unary(_) => n == 1
    case Fixed(_, size) => n == Max0(size)
  }

  predicate Converts(conv: Conversions, kind: Kind, values: seq<string>)
  {
    kind.Void? || forall i :: 0 <= i < |values| ==> Convert(conv, kind.of, values[i]).Some?
  }

  predicate Fits(conv: Conversions, kind: Kind, values: seq<string>)
  {
    RightNumber(kind, |values|) && Converts(conv, kind, values)
  }

  /** A known option, not --help, with the right number of valid arguments. */
  predicate Accepts(t: Tables, conv: Conversions, g: Group)
    requires IsOption(g.option)
  {
    match Resolve(t, g.option)
    case None => false
    case Some(k) => k in t.long && !t.long[k].isHelp && Fits(conv, t.long[k].kind, g.values)
  }

  predicate AllAccepted(t: Tables, conv: Conversions, gs: seq<Group>)
    requires forall g :: g in gs ==> IsOption(g.option)
    decreases |gs|
  {
    gs == [] || (Accepts(t, conv, gs[0]) && AllAccepted(t, conv, gs[1..]))
  }

  // --------------------------------------------------------- what is stored

  function ConvertAll(conv: Conversions, of: Scalar, values: seq<string>): (ds: seq<Datum>)
    requires forall i :: 0 <= i < |values| ==> Convert(conv, of, values[i]).Some?
    ensures |ds| == |values|
  {
    seq(|values|, i requires 0 <= i < |values| => Convert(conv, of, values[i]).value)
  }

  /** The variable after one group. */
  function Stored(conv: Conversions, kind: Kind, v: Variable, values: seq<string>): Variable
    requires Holds(v, kind) && Fits(conv, kind, values)
  {
    match kind
    case Void => Flag(true)
    case Unary(of) => One(Convert(conv, of, values[0]).value)
    case Multiple(of) => Many(v.data + ConvertAll(conv, of, values))
    case Fixed(of, size) => Cells(ConvertAll(conv, of, values) + v.cells[Max0(size)..])
  }

  function StoredAll(t: Tables, conv: Conversions, vars: Variables, gs: seq<Group>): (r: Variables)
    requires Valid(t, vars) && (forall g :: g in gs ==> IsOption(g.option)) && AllAccepted(t, conv, gs)
    ensures Valid(t, r)
    decreases |gs|
  {
    if gs == [] then vars else
    var k := Resolve(t, gs[0].option).value;
    var v := Stored(conv, t.long[k].kind, vars[k], gs[0].values);
    StoredHolds(conv, t.long[k].kind, vars[k], gs[0].values);
    KeepsValid(t, vars, k, v);
    StoredAll(t, conv, vars[k := v], gs[1..])
  }

  lemma StoredHolds(conv: Conversions, kind: Kind, v: Variable, values: seq<string>)
    requires Holds(v, kind) && Fits(conv, kind, values)
    ensures Holds(Stored(conv, kind, v, values), kind)
  {
  }

  // ------------------------------------------------------- one group is run

  /** The arguments of a group, once `done` of them have been stored. */
  predicate Continues(conv: Conversions, kind: Kind, done: nat, values: seq<string>)
  {
    && Converts(conv, kind, values)
    && (values == [] || match kind
                        case Unary(_) => done + |values| <= 1
                        case Fixed(_, size) => done + |values| <= size
                        case _ => true)
  }

  function PutAll(conv: Conversions, kind: Kind, v: Variable, done: nat, values: seq<string>): (r: Variable)
    requires Holds(v, kind) && Continues(conv, kind, done, values)
    ensures Holds(r, kind)
    decreases |values|
  {
    if values == [] then v else
    PutAll(conv, kind, SetParameter(conv, kind, v, done + 1, values[0]).v, done + 1, values[1..])
  }

  lemma {:induction false} RunValues(t: Tables, conv: Conversions, vars: Variables, c: Cursor, values: seq<string>, rest: seq<string>)
    requires Valid(t, vars) && c.current.Some? && c.current.value in t.long
    requires forall i :: 0 <= i < |values| ==> !IsOption(values[i]) && values[i] != ""
    ensures var k := c.current.value;
            var kind := t.long[k].kind;
            k in vars && Holds(vars[k], kind) &&
            if Continues(conv, kind, c.num, values) then
              var vars' := vars[k := PutAll(conv, kind, vars[k], c.num, values)];
              Valid(t, vars') && Run(t, conv, vars, c, values + rest) == Run(t, conv, vars', c.(num := c.num + |values|), rest)
            else Run(t, conv, vars, c, values + rest).0.Rejected?
    decreases |values|
  {
    hide Valid;
    var k := c.current.value;
    var kind := t.long[k].kind;
    VariableFits(t, vars, k);
    if values == [] {
      assert values + rest == rest && vars[k := vars[k]] == vars;
    } else {
      assert (values + rest)[0] == values[0] && (values + rest)[1..] == values[1..] + rest;
      var r := SetParameter(conv, kind, vars[k], c.num + 1, values[0]);
      ContinuesOn(conv, kind, vars[k], c.num, values);
      if r.Set? {
        KeepsValid(t, vars, k, r.v);
        RunValues(t, conv, vars[k := r.v], c.(num := c.num + 1), values[1..], rest);
        if Continues(conv, kind, c.num, values) {
          var last := PutAll(conv, kind, r.v, c.num + 1, values[1..]);
          assert vars[k := r.v][k := last] == vars[k := last];
        }
      }
    }
  }

  lemma ContinuesOn(conv: Conversions, kind: Kind, v: Variable, done: nat, values: seq<string>)
    requires values != [] && Holds(v, kind)
    ensures Continues(conv, kind, done, values)
       <==> SetParameter(conv, kind, v, done + 1, values[0]).Set? && Continues(conv, kind, done + 1, values[1..])
  {
    if !kind.Void? {
      assert Converts(conv, kind, values) <==> Convert(conv, kind.of, values[0]).Some? && Converts(conv, kind, values[1..]) by {
        assert forall i :: 0 < i < |values| ==> values[i] == values[1..][i - 1];
      }
    }
  }

  lemma ConvertMore(conv: Conversions, of: Scalar, value: string, values: seq<string>)
    requires Convert(conv, of, value).Some? && forall i :: 0 <= i < |values| ==> Convert(conv, of, values[i]).Some?
    ensures ConvertAll(conv, of, [value] + values) == [Convert(conv, of, value).value] + ConvertAll(conv, of, values)
  {
  }

  /** Storing the arguments one by one, each at its own place, stores the group. */
  lemma {:induction false} PutIsStored(conv: Conversions, kind: Kind, v: Variable, done: nat, values: seq<string>)
    requires Holds(v, kind) && Continues(conv, kind, done, values) && !kind.Void?
    ensures values == [] ==> PutAll(conv, kind, v, done, values) == v
    ensures values != [] ==>
              PutAll(conv, kind, v, done, values) ==
              match kind
              case Unary(of) => One(Convert(conv, of, values[0]).value)
              case Multiple(of) => Many(v.data + ConvertAll(conv, of, values))
              case Fixed(of, size) => Cells(v.cells[..done] + ConvertAll(conv, of, values) + v.cells[done + |values|..])
    decreases |values|
  {
    if values != [] {
      ContinuesOn(conv, kind, v, done, values);
      var w := SetParameter(conv, kind, v, done + 1, values[0]).v;
      PutIsStored(conv, kind, w, done + 1, values[1..]);
      assert values == [values[0]] + values[1..];
      ConvertMore(conv, kind.of, values[0], values[1..]);
    }
  }

  /** One pass over a group that fits stores it and leaves nothing lacking; over one that does not,
      the pass ends, at the latest with the argument behind it. */
  lemma ValuesPass(t: Tables, conv: Conversions, vars: Variables, k: string, name: string, values: seq<string>, rest: seq<string>)
    requires Valid(t, vars) && k in t.long && Starts(rest) && (t.long[k].kind == Void ==> vars[k] == Flag(true))
    requires forall i :: 0 <= i < |values| ==> !IsOption(values[i]) && values[i] != ""
    ensures var kind := t.long[k].kind;
            var end := Cursor(Some(k), name, |values|);
            if Fits(conv, kind, values) then
              var vars' := vars[k := Stored(conv, kind, vars[k], values)];
              && Valid(t, vars') && !Lacks(t, end)
              && Run(t, conv, vars, Cursor(Some(k), name, 0), values + rest) == Run(t, conv, vars', end, rest)
            else Run(t, conv, vars, Cursor(Some(k), name, 0), values + rest).0.Rejected?
  {
    hide Valid, Run, Converts;
    VariableFits(t, vars, k);
    var kind, v := t.long[k].kind, vars[k];
    var start, end := Cursor(Some(k), name, 0), Cursor(Some(k), name, |values|);
    RunValues(t, conv, vars, start, values, rest);
    if Continues(conv, kind, 0, values) {
      var vars' := vars[k := PutAll(conv, kind, v, 0, values)];
      if Fits(conv, kind, values) {
        PutStores(conv, kind, v, values);
      } else {
        assert Lacks(t, end);
        LacksEnds(t, conv, vars', end, rest);
      }
    } else {
      assert !Fits(conv, kind, values);
    }
  }

  lemma PutStores(conv: Conversions, kind: Kind, v: Variable, values: seq<string>)
    requires Holds(v, kind) && Continues(conv, kind, 0, values) && Fits(conv, kind, values)
    requires kind == Void ==> v == Flag(true)
    ensures PutAll(conv, kind, v, 0, values) == Stored(conv, kind, v, values)
  {
    if kind.Void? {
      PutNothing(conv, v, 0, values);
    } else {
      PutIsStored(conv, kind, v, 0, values);
      if values == [] && !kind.Unary? {
        assert ConvertAll(conv, kind.of, values) == [];
      }
    }
  }

  lemma {:induction false} PutNothing(conv: Conversions, v: Variable, done: nat, values: seq<string>)
    requires Holds(v, Void) && Continues(conv, Void, done, values)
    ensures PutAll(conv, Void, v, done, values) == v
    decreases |values|
  {
    if values != [] {
      PutNothing(conv, v, done + 1, values[1..]);
    }
  }

  lemma LacksEnds(t: Tables, conv: Conversions, vars: Variables, c: Cursor, rest: seq<string>)
    requires Valid(t, vars) && (c.current.Some? ==> c.current.value in t.long) && Lacks(t, c) && Starts(rest)
    ensures Run(t, conv, vars, c, rest).0 == Rejected(TooFew, c.option)
  {
  }

  /** The option of a group. */
  lemma OptionPass(t: Tables, conv: Conversions, vars: Variables, c: Cursor, args: seq<string>)
    requires Valid(t, vars) && (c.current.Some? ==> c.current.value in t.long) && !Lacks(t, c)
    requires args != [] && IsOption(args[0])
    ensures var r := Resolve(t, args[0]);
            if r.None? || t.long[r.value].isHelp then Run(t, conv, vars, c, args).0 != Accepted
            else
              var k := r.value;
              var vars' := if t.long[k].kind == Void then vars[k := Flag(true)] else vars;
              Valid(t, vars') && Run(t, conv, vars, c, args) == Run(t, conv, vars', Cursor(Some(k), OptionName(args[0]), 0), args[1..])
  {
    var r := Resolve(t, args[0]);
    if r.Some? && t.long[r.value].kind == Void {
      KeepsValid(t, vars, r.value, Flag(true));
    }
  }

  lemma ResolvesKnown(t: Tables, vars: Variables, arg: string)
    requires Valid(t, vars) && IsOption(arg)
    ensures Resolve(t, arg).Some? ==> Resolve(t, arg).value in t.long
  {
  }

  lemma FirstGroup(args: seq<string>)
    requires args != [] && IsOption(args[0])
    ensures var n := Plain(args[1..]);
            Groups(args) == [Group(args[0], args[1..n + 1])] + Groups(args[n + 1..]) && Groups(args)[1..] == Groups(args[n + 1..])
  {
  }

  /** The first group: it is stored, or the pass ends without accepting. */
  lemma GroupPass(t: Tables, conv: Conversions, vars: Variables, c: Cursor, args: seq<string>)
    requires Valid(t, vars) && (c.current.Some? ==> c.current.value in t.long) && !Lacks(t, c)
    requires args != [] && IsOption(args[0]) && "" !in args
    ensures var n := Plain(args[1..]);
            var g := Group(args[0], args[1..n + 1]);
            if Accepts(t, conv, g) then
              var k := Resolve(t, g.option).value;
              var end := Cursor(Some(k), OptionName(g.option), n);
              && k in vars && Holds(vars[k], t.long[k].kind) && !Lacks(t, end)
              && var vars' := vars[k := Stored(conv, t.long[k].kind, vars[k], g.values)];
                 Valid(t, vars') && Run(t, conv, vars, c, args) == Run(t, conv, vars', end, args[n + 1..])
            else Run(t, conv, vars, c, args).0 != Accepted
  {
    hide Valid, Fits, Lacks, Run, Resolve, Stored;
    var n := Plain(args[1..]);
    var values, rest := args[1..n + 1], args[n + 1..];
    assert args[1..] == values + rest;
    assert forall i :: 0 <= i < |values| ==> values[i] == args[1..][i] && values[i] in args;
    OptionPass(t, conv, vars, c, args);
    ResolvesKnown(t, vars, args[0]);
    var r := Resolve(t, args[0]);
    if r.Some? && !t.long[r.value].isHelp {
      var k := r.value;
      var kind := t.long[k].kind;
      VariableFits(t, vars, k);
      var vars' := if kind == Void then vars[k := Flag(true)] else vars;
      ValuesPass(t, conv, vars', k, OptionName(args[0]), values, rest);
      if Fits(conv, kind, values) {
        StoredVoid(conv, kind, vars[k], values);
        assert vars'[k := Stored(conv, kind, vars[k], values)] == vars[k := Stored(conv, kind, vars[k], values)];
      }
    }
  }

  lemma StoredVoid(conv: Conversions, kind: Kind, v: Variable, values: seq<string>)
    requires Holds(v, kind) && Fits(conv, kind, values)
    ensures kind == Void ==> Stored(conv, kind, v, values) == Stored(conv, kind, Flag(true), values)
  {
  }

  lemma {:induction false} RunGroups(t: Tables, conv: Conversions, vars: Variables, c: Cursor, args: seq<string>)
    requires Valid(t, vars) && (c.current.Some? ==> c.current.value in t.long) && !Lacks(t, c)
    requires Starts(args) && "" !in args
    ensures Run(t, conv, vars, c, args).0 == Accepted <==> AllAccepted(t, conv, Groups(args))
    ensures AllAccepted(t, conv, Groups(args)) ==> Run(t, conv, vars, c, args).1 == StoredAll(t, conv, vars, Groups(args))
    decreases |args|
  {
    hide Valid, Fits, Lacks, Resolve, Stored;
    if args == [] {
    } else {
      hide Run;
      var n := Plain(args[1..]);
      FirstGroup(args);
      GroupPass(t, conv, vars, c, args);
      var g := Group(args[0], args[1..n + 1]);
      if Accepts(t, conv, g) {
        var k := Resolve(t, g.option).value;
        RunGroups(t, conv, vars[k := Stored(conv, t.long[k].kind, vars[k], g.values)], Cursor(Some(k), OptionName(g.option), n), args[n + 1..]);
      }
    }
  }

  lemma {:induction false} EmptyNotAccepted(t: Tables, conv: Conversions, vars: Variables, c: Cursor, args: seq<string>)
    requires Valid(t, vars) && (c.current.Some? ==> c.current.value in t.long) && "" in args
    ensures Run(t, conv, vars, c, args).0 != Accepted
    decreases |args|
  {
    hide Valid;
    var p := Step(t, conv, vars, c, args[0]);
    if p.Go? {
      EmptyNotAccepted(t, conv, p.vars, p.cursor, args[1..]);
    }
  }

  /** The pass accepts exactly the arguments that split into known options, each followed by the
      number of valid arguments its type asks for; and then it has stored every group in turn. */
  lemma ParsesExactly(t: Tables, conv: Conversions, vars: Variables, args: seq<string>)
    requires Valid(t, vars)
    ensures Run(t, conv, vars, START, args).0 == Accepted <==> Starts(args) && "" !in args && AllAccepted(t, conv, Groups(args))
    ensures Run(t, conv, vars, START, args).0 == Accepted ==> Run(t, conv, vars, START, args).1 == StoredAll(t, conv, vars, Groups(args))
  {
    if "" in args {
      EmptyNotAccepted(t, conv, vars, START, args);
    } else if Starts(args) {
      RunGroups(t, conv, vars, START, args);
    } else {
      assert args[0] in args;
    }
  }

  // ------------------------------------------------- what the variables hold

  /** The argument lists given to option `k`, in order. */
  function Given(t: Tables, gs: seq<Group>, k: string): seq<seq<string>>
    requires forall g :: g in gs ==> IsOption(g.option)
    decreases |gs|
  {
    if gs == [] then []
    else (if Resolve(t, gs[0].option) == Some(k) then [gs[0].values] else []) + Given(t, gs[1..], k)
  }

  function Concat(lists: seq<seq<string>>): seq<string>
    decreases |lists|
  {
    if lists == [] then [] else lists[0] + Concat(lists[1..])
  }

  lemma ConvertConcat(conv: Conversions, of: Scalar, a: seq<string>, b: seq<string>)
    requires forall i :: 0 <= i < |a| ==> Convert(conv, of, a[i]).Some?
    requires forall i :: 0 <= i < |b| ==> Convert(conv, of, b[i]).Some?
    ensures forall i :: 0 <= i < |a + b| ==> Convert(conv, of, (a + b)[i]).Some?
    ensures ConvertAll(conv, of, a + b) == ConvertAll(conv, of, a) + ConvertAll(conv, of, b)
  {
  }

  predicate EachFits(conv: Conversions, kind: Kind, lists: seq<seq<string>>)
  {
    forall i :: 0 <= i < |lists| ==> Fits(conv, kind, lists[i])
  }

  lemma {:induction false} GivenFits(t: Tables, conv: Conversions, gs: seq<Group>, k: string)
    requires (forall g :: g in gs ==> IsOption(g.option)) && AllAccepted(t, conv, gs) && k in t.long
    ensures EachFits(conv, t.long[k].kind, Given(t, gs, k))
    decreases |gs|
  {
    hide Fits, Resolve;
    if gs != [] {
      GivenFits(t, conv, gs[1..], k);
    }
  }

  /** The variable of option `k` after every group, from the lists given to `k` alone. */
  function StoredIn(conv: Conversions, kind: Kind, v: Variable, lists: seq<seq<string>>): (r: Variable)
    requires Holds(v, kind) && EachFits(conv, kind, lists)
    ensures Holds(r, kind)
    decreases |lists|
  {
    if lists == [] then v else
    StoredHolds(conv, kind, v, lists[0]);
    StoredIn(conv, kind, Stored(conv, kind, v, lists[0]), lists[1..])
  }

  /** No option touches the variable of another. */
  lemma {:induction false} OwnGroupsOnly(t: Tables, conv: Conversions, vars: Variables, gs: seq<Group>, k: string)
    requires Valid(t, vars) && (forall g :: g in gs ==> IsOption(g.option)) && AllAccepted(t, conv, gs) && k in t.long
    ensures EachFits(conv, t.long[k].kind, Given(t, gs, k)) && k in vars && Holds(vars[k], t.long[k].kind)
    ensures k in StoredAll(t, conv, vars, gs)
    ensures StoredAll(t, conv, vars, gs)[k] == StoredIn(conv, t.long[k].kind, vars[k], Given(t, gs, k))
    decreases |gs|
  {
    hide Fits, Resolve, Stored, Valid, EachFits;
    GivenFits(t, conv, gs, k);
    VariableFits(t, vars, k);
    if gs != [] {
      var j := Resolve(t, gs[0].option).value;
      VariableFits(t, vars, j);
      StoredHolds(conv, t.long[j].kind, vars[j], gs[0].values);
      var v := Stored(conv, t.long[j].kind, vars[j], gs[0].values);
      KeepsValid(t, vars, j, v);
      OwnGroupsOnly(t, conv, vars[j := v], gs[1..], k);
      if j == k {
        assert Given(t, gs, k) == [gs[0].values] + Given(t, gs[1..], k);
        assert ([gs[0].values] + Given(t, gs[1..], k))[1..] == Given(t, gs[1..], k);
      } else {
        assert Given(t, gs, k) == Given(t, gs[1..], k);
      }
    }
  }

  /** A flag is set by any occurrence; a unary variable holds the last value; a list all values in
      order, behind what it held; an array the last list, its further cells untouched. */
  lemma {:induction false} FinalValue(conv: Conversions, kind: Kind, v: Variable, lists: seq<seq<string>>)
    requires Holds(v, kind) && EachFits(conv, kind, lists)
    ensures var r := StoredIn(conv, kind, v, lists);
            match kind
            case Void => lists != [] ==> r == Flag(true)
            case Unary(of) => lists != [] ==> var last := lists[|lists| - 1]; |last| == 1 && r == One(Convert(conv, of, last[0]).value)
            case Multiple(of) =>
              (forall i :: 0 <= i < |Concat(lists)| ==> Convert(conv, of, Concat(lists)[i]).Some?)
              && r == Many(v.data + ConvertAll(conv, of, Concat(lists)))
            case Fixed(of, size) =>
              lists != [] ==>
              var last := lists[|lists| - 1];
              |last| == Max0(size) && r == Cells(ConvertAll(conv, of, last) + v.cells[|last|..])
    decreases |lists|
  {
    if lists != [] {
      assert Fits(conv, kind, lists[0]);
      StoredHolds(conv, kind, v, lists[0]);
      var w := Stored(conv, kind, v, lists[0]);
      FinalValue(conv, kind, w, lists[1..]);
      match kind
      case Multiple(of) =>
        ConvertConcat(conv, of, lists[0], Concat(lists[1..]));
      case Fixed(of, size) =>
        assert w.cells[Max0(size)..] == v.cells[Max0(size)..];
      case Void =>
      case Unary(of) =>
    }
  }

  /** After an accepted pass the variable of every option is what the lists given to that option
      alone make of it. */
  lemma ParsedVariables(t: Tables, conv: Conversions, vars: Variables, args: seq<string>, k: string)
    requires Valid(t, vars) && k in t.long && Run(t, conv, vars, START, args).0 == Accepted
    ensures Starts(args)
    ensures var lists := Given(t, Groups(args), k);
            && k in vars && Holds(vars[k], t.long[k].kind) && EachFits(conv, t.long[k].kind, lists)
            && k in Run(t, conv, vars, START, args).1
            && Run(t, conv, vars, START, args).1[k] == StoredIn(conv, t.long[k].kind, vars[k], lists)
  {
    hide Run, Valid, Fits, EachFits;
    ParsesExactly(t, conv, vars, args);
    OwnGroupsOnly(t, conv, vars, Groups(args), k);
  }

  // ------------------------------------------------------------------ --help

  predicate AsksHelp(t: Tables, arg: string)
  {
    IsOption(arg) && Resolve(t, arg).Some? && Resolve(t, arg).value in t.long && t.long[Resolve(t, arg).value].isHelp
  }

  lemma {:induction false} HelpFrom(t: Tables, conv: Conversions, vars: Variables, c: Cursor, args: seq<string>)
    requires Valid(t, vars) && (c.current.Some? ==> c.current.value in t.long)
    ensures Run(t, conv, vars, c, args).0 == Help
       <==> exists k :: 0 <= k < |args| && AsksHelp(t, args[k]) && Run(t, conv, vars, c, args[..k]).0 == Accepted
    decreases |args|
  {
    hide Valid;
    if args != [] {
      var p := Step(t, conv, vars, c, args[0]);
      ResolvesKnownHere(t, vars, args[0]);
      assert args[..0] == [];
      assert forall k {:trigger args[..k]} :: 0 < k <= |args| ==> args[..k][0] == args[0] && args[..k][1..] == args[1..][..k - 1];
      if p.Go? {
        HelpFrom(t, conv, p.vars, p.cursor, args[1..]);
        var rest := args[1..];
        if k :| 0 <= k < |rest| && AsksHelp(t, rest[k]) && Run(t, conv, p.vars, p.cursor, rest[..k]).0 == Accepted {
          assert args[..k + 1][1..] == rest[..k] && args[k + 1] == rest[k];
        }
      }
    }
  }

  lemma ResolvesKnownHere(t: Tables, vars: Variables, arg: string)
    requires Valid(t, vars)
    ensures IsOption(arg) && Resolve(t, arg).Some? ==> Resolve(t, arg).value in t.long
  {
  }

  /** The help text is shown exactly when --help comes behind arguments that are complete and
      acceptable in themselves. */
  lemma HelpExactly(t: Tables, conv: Conversions, vars: Variables, args: seq<string>)
    requires Valid(t, vars)
    ensures Run(t, conv, vars, START, args).0 == Help
       <==> exists k :: 0 <= k < |args| && AsksHelp(t, args[k]) && Run(t, conv, vars, START, args[..k]).0 == Accepted
  {
    HelpFrom(t, conv, vars, START, args);
  }
}
