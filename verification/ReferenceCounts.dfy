/** References by what was got and dropped. */
module ReferenceCounts {
  // Who holds what is worked out from the events of a run: a lookup that hits, an open and a copy
  // give a reference, a drop takes it. The cache is compared with that.

  import opened Text
  import opened ResourceCache

  // --------------------------------------------------------- single steps

  /** A reference that is held can be copied under any free name. The copy refers to the same object,
      every other reference stays as it is, and nothing else changes. */
  lemma CopyShares(s: State, h: nat, c: nat)
    ensures Step(s, Copy(h, c)).Some? <==> h in s.handles && c !in s.handles
    ensures Step(s, Copy(h, c)).Some? ==>
              var t := Step(s, Copy(h, c)).value;
              && t.handles.Keys == s.handles.Keys + {c} && t.handles[c] == s.handles[h]
              && (forall k :: k in s.handles ==> t.handles[k] == s.handles[k])
              && t == s.(handles := t.handles)
  {
  }

  /** A reference can be dropped at any time, whoever is inside the mutex, unless it is that thread's own.
      Only the object's phase can change with it. */
  lemma DropTakes(s: State, h: nat)
    requires Inv(s)
    ensures Step(s, Drop(h)).Some? <==> h in s.handles && Local(s.lock) != Some(h)
    ensures Step(s, Drop(h)).Some? ==>
              var t, o := Step(s, Drop(h)).value, s.handles[h];
              && t.handles == s.handles - {h} && t == s.(handles := t.handles, objects := t.objects)
              && o < |s.objects| == |t.objects|
              && t.objects[o] == s.objects[o].(phase := if exists k :: k in s.handles && k != h && s.handles[k] == o then Live else Zombie)
              && forall k :: 0 <= k < |s.objects| && k != o ==> t.objects[k] == s.objects[k]
  {
    assert HandlesOk(s);
    if Step(s, Drop(h)).Some? {
      var t, o := Step(s, Drop(h)).value, s.handles[h];
      if k :| k in s.handles && k != h && s.handles[k] == o {
        assert k in t.handles && t.handles[k] == o;
      }
    }
  }

  /** Numbers opened and closed elsewhere: any free number can be taken, and only what is not the
      cache's is closed; the cache itself does not change. */
  lemma ElsewhereIsElsewhere(s: State, n: int)
    ensures Step(s, OutsideOpen(n)).Some? <==> n !in s.table
    ensures Step(s, OutsideOpen(n)).Some? ==>
              var t := Step(s, OutsideOpen(n)).value;
              t == s.(table := t.table) && t.table.Keys == s.table.Keys + {n} && t.table[n] == Outside
              && forall m :: m in s.table ==> t.table[m] == s.table[m]
    ensures Step(s, OutsideClose(n)).Some? <==> n in s.table && s.table[n] == Outside
    ensures Step(s, OutsideClose(n)).Some? ==>
              var t := Step(s, OutsideClose(n)).value;
              t == s.(table := t.table) && t.table.Keys == s.table.Keys - {n}
              && forall m :: m in t.table ==> t.table[m] == s.table[m]
  {
  }

  // ------------------------------------------------------------ the ledger

  /** Who holds which object after one event that happens in state `s`, if `held` is who did before. */
  function Entry(held: map<nat, nat>, s: State, e: Event): map<nat, nat>
  {
    match e
    case LockWeak(h) =>
      if s.lock.Entered? && s.lock.path in s.entries && !Expired(s, s.entries[s.lock.path])
      then held[h := s.entries[s.lock.path].value] else held
    case Open(Some(_), h) => held[h := |s.objects|]
    case Copy(h, c) => if h in held then held[c := held[h]] else held
    case Drop(h) => held - {h}
    case _ => held
  }

  /** Over a run, from the events. */
  function Ledger(held: map<nat, nat>, s: State, es: seq<Event>): map<nat, nat>
    decreases |es|
  {
    if es == [] || Step(s, es[0]).None? then held
    else Ledger(Entry(held, s, es[0]), Step(s, es[0]).value, es[1..])
  }

  lemma StepEntry(s: State, e: Event)
    requires Step(s, e).Some?
    ensures Step(s, e).value.handles == Entry(s.handles, s, e)
  {
  }

  lemma {:induction false} RunLedger(s: State, es: seq<Event>)
    requires Run(s, es).Some?
    ensures Run(s, es).value.handles == Ledger(s.handles, s, es)
    decreases |es|
  {
    hide Step, Entry;
    if es != [] {
      StepEntry(s, es[0]);
      RunLedger(Step(s, es[0]).value, es[1..]);
    }
  }

  /** Over any run of a new server: an object is live exactly as long as somebody still holds a
      reference to it that was got by a lookup, an open or a copy and has not been dropped. */
  lemma LiveExactlyWhileHeld(init: State, es: seq<Event>, o: nat)
    requires Init(init) && Run(init, es).Some?
    ensures IsLive(Run(init, es).value, o) <==> o in Ledger(map[], init, es).Values
  {
    InitInv(init);
    RunInv(init, es);
    RunLedger(init, es);
    var t := Run(init, es).value;
    assert HandlesOk(t);
    if o in t.handles.Values {
      var h :| h in t.handles && t.handles[h] == o;
      assert IsLive(t, t.handles[h]);
    }
  }

  // ------------------------------------------------------------- the count

  ghost function Refs(s: State, o: nat): set<nat>
  {
    set h | h in s.handles && s.handles[h] == o
  }

  /** How many references to `o` an event gives. */
  function Gives(s: State, e: Event, o: nat): nat
  {
    match e
    case LockWeak(_) =>
      if s.lock.Entered? && s.lock.path in s.entries && !Expired(s, s.entries[s.lock.path])
         && s.entries[s.lock.path] == Some(o) then 1 else 0
    case Open(Some(_), _) => if o == |s.objects| then 1 else 0
    case Copy(h, _) => if h in s.handles && s.handles[h] == o then 1 else 0
    case _ => 0
  }

  function Takes(s: State, e: Event, o: nat): nat
  {
    if e.Drop? && e.handle in s.handles && s.handles[e.handle] == o then 1 else 0
  }

  function GivenIn(s: State, es: seq<Event>, o: nat): nat
    decreases |es|
  {
    if es == [] || Step(s, es[0]).None? then 0 else Gives(s, es[0], o) + GivenIn(Step(s, es[0]).value, es[1..], o)
  }

  function TakenIn(s: State, es: seq<Event>, o: nat): nat
    decreases |es|
  {
    if es == [] || Step(s, es[0]).None? then 0 else Takes(s, es[0], o) + TakenIn(Step(s, es[0]).value, es[1..], o)
  }

  lemma StepCounts(s: State, e: Event, o: nat)
    requires Step(s, e).Some?
    ensures |Refs(Step(s, e).value, o)| + Takes(s, e, o) == |Refs(s, o)| + Gives(s, e, o)
  {
    hide Step, Refs, IsLive;
    var t := Step(s, e).value;
    StepEntry(s, e);
    StepNames(s, e);
    match e
    case LockWeak(h) => Joined(s, t, h, o);
    case Open(_, h) => Joined(s, t, h, o);
    case Copy(_, c) => Joined(s, t, c, o);
    case Drop(h) => Parted(s, t, h, o);
    case _ =>
      hide Entry, Gives, Takes;
      SameRefs(s, t, o);
  }

  /** A new reference has a free name, and the one copied or dropped exists. */
  lemma StepNames(s: State, e: Event)
    requires Step(s, e).Some?
    ensures match e
            case LockWeak(h) => h !in s.handles && s.lock.Entered? && s.lock.path in s.entries
            case Open(_, h) => h !in s.handles
            case Copy(h, c) => h in s.handles && c !in s.handles
            case Drop(h) => h in s.handles
            case _ => Step(s, e).value.handles == s.handles && Gives(s, e, 0) == 0
  {
  }

  lemma SameRefs(s: State, t: State, o: nat)
    requires s.handles == t.handles
    ensures Refs(t, o) == Refs(s, o)
  {
  }

  lemma Parted(s: State, t: State, h: nat, o: nat)
    requires h in s.handles && t.handles == s.handles - {h}
    ensures |Refs(s, o)| == |Refs(t, o)| + if s.handles[h] == o then 1 else 0
  {
    if s.handles[h] == o {
      assert Refs(s, o) == Refs(t, o) + {h} && h !in Refs(t, o);
    } else {
      assert Refs(s, o) == Refs(t, o);
    }
  }

  lemma Joined(s: State, t: State, h: nat, o: nat)
    requires h !in s.handles && t.handles.Keys <= s.handles.Keys + {h} && s.handles.Keys <= t.handles.Keys
    requires forall k :: k in s.handles ==> t.handles[k] == s.handles[k]
    ensures |Refs(t, o)| == |Refs(s, o)| + if h in t.handles && t.handles[h] == o then 1 else 0
  {
    if h in t.handles && t.handles[h] == o {
      assert Refs(t, o) == Refs(s, o) + {h};
    } else {
      assert Refs(t, o) == Refs(s, o);
    }
  }

  lemma {:induction false} RunCounts(s: State, es: seq<Event>, o: nat)
    requires Run(s, es).Some?
    ensures |Refs(Run(s, es).value, o)| + TakenIn(s, es, o) == |Refs(s, o)| + GivenIn(s, es, o)
    decreases |es|
  {
    hide Step, Refs, Gives, Takes;
    if es != [] {
      StepCounts(s, es[0], o);
      RunCounts(Step(s, es[0]).value, es[1..], o);
    }
  }

  lemma HeldMeansLive(s: State, o: nat)
    requires Inv(s)
    ensures IsLive(s, o) <==> Refs(s, o) != {}
  {
    assert HandlesOk(s);
    if IsLive(s, o) {
      var h :| h in s.handles && s.handles[h] == o;
      assert h in Refs(s, o);
    }
  }

  /** Over any run of a new server there are as many references to an object as were given and not
      taken back, and the object is live exactly as long as there is one. */
  lemma ReferencesAreCounted(init: State, es: seq<Event>, o: nat)
    requires Init(init) && Run(init, es).Some?
    ensures TakenIn(init, es, o) <= GivenIn(init, es, o)
    ensures |Refs(Run(init, es).value, o)| == GivenIn(init, es, o) - TakenIn(init, es, o)
    ensures IsLive(Run(init, es).value, o) <==> TakenIn(init, es, o) < GivenIn(init, es, o)
  {
    hide Run, Inv, GivenIn, TakenIn;
    InitInv(init);
    RunInv(init, es);
    RunCounts(init, es, o);
    assert Refs(init, o) == {};
    HeldMeansLive(Run(init, es).value, o);
  }

  lemma StepRefs(s: State, e: Event, o: nat)
    requires Step(s, e).Some?
    ensures if e.Drop? then Refs(Step(s, e).value, o) == Refs(s, o) - {e.handle} else Refs(s, o) <= Refs(Step(s, e).value, o)
  {
  }

  /** A live object stops being live in exactly one way: the one reference left to it is dropped. */
  lemma LastDropExactly(s: State, e: Event, o: nat)
    requires Reachable(s) && Step(s, e).Some? && IsLive(s, o)
    ensures !IsLive(Step(s, e).value, o) <==> exists h: nat :: e == Drop(h) && Refs(s, o) == {h}
    ensures !IsLive(Step(s, e).value, o) ==>
              o < |Step(s, e).value.objects| && Step(s, e).value.objects[o].phase == Zombie
  {
    hide Step, Inv, Refs;
    ReachableInv(s);
    StepInv(s, e);
    StepRefs(s, e, o);
    HeldMeansLive(s, o);
    HeldMeansLive(Step(s, e).value, o);
    if e.Drop? && Refs(s, o) - {e.handle} == {} {
      OneLeft(Refs(s, o), e.handle);
    }
    LastDropPhase(s, e, o);
  }

  lemma OneLeft(a: set<nat>, h: nat)
    requires a != {} && a - {h} == {}
    ensures a == {h}
  {
    forall k | k in a
      ensures k == h
    {
      assert k != h ==> k in a - {h};
    }
  }

  lemma LastDropPhase(s: State, e: Event, o: nat)
    requires Inv(s) && Step(s, e).Some? && IsLive(s, o)
    ensures o < |Step(s, e).value.objects| && Step(s, e).value.objects[o].phase in {Live, Zombie}
  {
    assert LockOk(s);
  }

  // --------------------------------------------------- what a holder can rely on

  /** Whoever has a reference and does not drop it keeps it: over any run, whatever others look up,
      copy and drop, it refers to the same live object, whose number stays the cache's own. */
  lemma HeldStays(s: State, es: seq<Event>, h: nat)
    requires Reachable(s) && Run(s, es).Some? && h in s.handles && Drop(h) !in es
    ensures var t, o := Run(s, es).value, s.handles[h];
            && h in t.handles && t.handles[h] == o && IsLive(s, o) && IsLive(t, o) && t.lock != Closing(o)
            && t.objects[o].number == s.objects[o].number
            && t.objects[o].number in t.table && t.table[t.objects[o].number] == Cache(o)
  {
    ReachableInv(s);
    RunInv(s, es);
    var t := Run(s, es).value;
    KeepsHandle(s, es, h);
    assert HandlesOk(s) && HandlesOk(t) && TableOk(t) && LockOk(t);
    RunLater(s, es);
  }

  lemma {:induction false} KeepsHandle(s: State, es: seq<Event>, h: nat)
    requires Run(s, es).Some? && h in s.handles && Drop(h) !in es
    ensures h in Run(s, es).value.handles && Run(s, es).value.handles[h] == s.handles[h]
    decreases |es|
  {
    hide Step;
    if es != [] {
      StepKeeps(s, es[0], h);
      assert es == [es[0]] + es[1..];
      KeepsHandle(Step(s, es[0]).value, es[1..], h);
    }
  }

  lemma StepKeeps(s: State, e: Event, h: nat)
    requires Step(s, e).Some? && h in s.handles && e != Drop(h)
    ensures h in Step(s, e).value.handles && Step(s, e).value.handles[h] == s.handles[h]
  {
  }

  /** A copy outlives the reference it was made from: the original dropped, the object is still live
      and its number open, in the state right behind and over any run in which the copy is not dropped. */
  lemma CopyOutlives(s: State, h: nat, c: nat, es: seq<Event>)
    requires Reachable(s) && h in s.handles && Drop(c) !in es
    requires Run(s, [Copy(h, c)] + es).Some?
    ensures var t, o := Run(s, [Copy(h, c)] + es).value, s.handles[h];
            && c in t.handles && t.handles[c] == o && IsLive(t, o) && t.lock != Closing(o)
            && t.objects[o].number in t.table && t.table[t.objects[o].number] == Cache(o)
  {
    hide Step;
    assert ([Copy(h, c)] + es)[1..] == es;
    CopyShares(s, h, c);
    var t := Step(s, Copy(h, c)).value;
    NextReachable(s, Copy(h, c));
    HeldStays(t, es, c);
  }

  lemma NextReachable(s: State, e: Event)
    requires Reachable(s) && Step(s, e).Some?
    ensures Reachable(Step(s, e).value)
  {
    hide Step, Init;
    var init: State, es: seq<Event> :| Init(init) && Run(init, es) == Some(s);
    RunAppend(init, es, [e]);
    assert [e][1..] == [];
    assert Run(s, [e]) == Run(Step(s, e).value, []);
    assert Run(init, es + [e]) == Some(Step(s, e).value);
  }
}
