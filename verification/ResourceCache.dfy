/** HttpServer's cache of shared descriptors and mappings. */
module ResourceCache {
  // A map of weak references under a mutex, references dropped outside the mutex, and deleters that
  // run some time after the last drop. Every interleaving is a list of events; one event is one
  // atomic step.

  import opened Text

  type Path = string

  /** Live: some shared_ptr refers to it. Zombie: the last one is gone, so the weak reference
      has expired, and the deleter has still to finish. Closed: released. */
  datatype Phase = Live | Zombie | Closed

  /** What a shared_ptr points to; `length` is what a mapping was made and is unmapped with. */
  datatype Object = Object(path: Path, number: int, length: nat, phase: Phase)

  /** Whose a descriptor number (or mapped address) is in the kernel's table. */
  datatype Owner = Cache(o: nat) | Outside

  /** Where the thread inside the mutex stands. */
  datatype Lock =
    | Free
    | Entered(path: Path, length: nat)        // after map[path]
    | Missed(path: Path, length: nat)         // lock() gave nothing
    | Opened(path: Path, handle: nat, o: nat) // sp made, not yet in the map
    | Leaving(result: Option<nat>)            // about to return and unlock
    | Deleting(o: nat)                        // the deleter holds the mutex
    | Closing(o: nat)                         // find, expired and erase are done

  datatype State = State(
    entries: map<Path, Option<nat>>, // weak references; None is the empty weak_ptr
    objects: seq<Object>,            // all ever made
    handles: map<nat, nat>,          // every shared_ptr in existence, and its object
    table: map<int, Owner>,          // the kernel's open numbers
    failed: set<Path>,               // paths whose open failed at least once
    lock: Lock)

  datatype Event =
    | Enter(path: Path, length: nat)
    | LockWeak(handle: nat)
    | Open(acquired: Option<int>, handle: nat)
    | Publish
    | Release
    | Copy(handle: nat, copy: nat)
    | Drop(handle: nat)
    | BeginDelete(o: nat)
    | EraseExpired
    | Close
    | OutsideOpen(number: int)
    | OutsideClose(number: int)

  predicate IsLive(s: State, o: nat)
  {
    o < |s.objects| && s.objects[o].phase == Live
  }

  /** weak_ptr::expired(). */
  predicate Expired(s: State, w: Option<nat>)
  {
    w.None? || !IsLive(s, w.value)
  }

  /** The shared_ptr local to the thread inside the mutex. */
  function Local(l: Lock): Option<nat>
  {
    match l
    case Opened(_, h, _) => Some(h)
    case Leaving(r) => r
    case _ => None
  }

  function SetPhase(s: State, o: nat, p: Phase): State
    requires o < |s.objects|
  {
    s.(objects := s.objects[o := s.objects[o].(phase := p)])
  }

  /** One atomic step; None when it cannot happen now. */
  function Step(s: State, e: Event): Option<State>
  {
    match e
    case Enter(p, n) =>
      if s.lock != Free then None
      else Some(s.(entries := if p in s.entries then s.entries else s.entries[p := None], lock := Entered(p, n)))
    case LockWeak(h) =>
      if !s.lock.Entered? || h in s.handles || s.lock.path !in s.entries then None else
      var w := s.entries[s.lock.path];
      if Expired(s, w) then Some(s.(lock := Missed(s.lock.path, s.lock.length)))
      else Some(s.(handles := s.handles[h := w.value], lock := Leaving(Some(h))))
    case Open(acquired, h) =>
      if !s.lock.Missed? || h in s.handles then None else
      if acquired.None? then Some(s.(failed := s.failed + {s.lock.path}, lock := Leaving(None))) else
      if acquired.value in s.table then None else
      var o := |s.objects|;
      Some(s.(objects := s.objects + [Object(s.lock.path, acquired.value, s.lock.length, Live)],
              handles := s.handles[h := o],
              table := s.table[acquired.value := Cache(o)],
              lock := Opened(s.lock.path, h, o)))
    case Publish =>
      if !s.lock.Opened? then None
      else Some(s.(entries := s.entries[s.lock.path := Some(s.lock.o)], lock := Leaving(Some(s.lock.handle))))
    case Release =>
      if s.lock.Leaving? then Some(s.(lock := Free)) else None
    case Copy(h, c) =>
      if h !in s.handles || c in s.handles then None else Some(s.(handles := s.handles[c := s.handles[h]]))
    case Drop(h) =>
      if h !in s.handles || Local(s.lock) == Some(h) || s.handles[h] >= |s.objects| then None else
      var t := s.(handles := s.handles - {h});
      Some(if s.handles[h] in t.handles.Values then t else SetPhase(t, s.handles[h], Zombie))
    case BeginDelete(o) =>
      if s.lock != Free || o >= |s.objects| || s.objects[o].phase != Zombie then None
      else Some(s.(lock := Deleting(o)))
    case EraseExpired =>
      if !s.lock.Deleting? || s.lock.o >= |s.objects| then None else
      var p := s.objects[s.lock.o].path;
      Some(s.(entries := if p in s.entries && Expired(s, s.entries[p]) then s.entries - {p} else s.entries,
              lock := Closing(s.lock.o)))
    case Close =>
      if !s.lock.Closing? || s.lock.o >= |s.objects| then None
      else Some(SetPhase(s, s.lock.o, Closed).(table := s.table - {s.objects[s.lock.o].number}, lock := Leaving(None)))
    case OutsideOpen(n) =>
      if n in s.table then None else Some(s.(table := s.table[n := Outside]))
    case OutsideClose(n) =>
      if n in s.table && s.table[n] == Outside then Some(s.(table := s.table - {n})) else None
  }

  function Run(s: State, es: seq<Event>): Option<State>
    decreases |es|
  {
    if es == [] then Some(s) else
    match Step(s, es[0])
    case None => None
    case Some(t) => Run(t, es[1..])
  }

  /** A new server in a process with some descriptors open already. */
  ghost predicate Init(s: State)
  {
    && s.entries == map[] && s.objects == [] && s.handles == map[] && s.failed == {} && s.lock == Free
    && forall n :: n in s.table ==> s.table[n] == Outside
  }

  // ------------------------------------------------------------ invariant

  ghost predicate HandlesOk(s: State)
  {
    && (forall h :: h in s.handles ==> IsLive(s, s.handles[h]))
    && (forall o: nat :: IsLive(s, o) ==> o in s.handles.Values)
  }

  ghost predicate EntriesOk(s: State)
  {
    forall p :: p in s.entries && s.entries[p].Some? ==>
      var o := s.entries[p].value;
      o < |s.objects| && s.objects[o].path == p && s.objects[o].phase != Closed && s.lock != Closing(o)
  }

  /** Every live object is the one its path's entry refers to, except between open and publish. */
  ghost predicate LiveOk(s: State)
  {
    forall o: nat :: IsLive(s, o) ==>
      var p := s.objects[o].path;
      if s.lock.Opened? && s.lock.path == p then o == s.lock.o else p in s.entries && s.entries[p] == Some(o)
  }

  ghost predicate TableOk(s: State)
  {
    && (forall o: nat :: o < |s.objects| && s.objects[o].phase != Closed ==>
          s.objects[o].number in s.table && s.table[s.objects[o].number] == Cache(o))
    && (forall n :: n in s.table && s.table[n].Cache? ==>
          var o := s.table[n].o; o < |s.objects| && s.objects[o].phase != Closed && s.objects[o].number == n)
  }

  /** The path a lookup is working on. */
  predicate InProgress(l: Lock, p: Path)
  {
    (l.Entered? || l.Missed? || l.Opened?) && l.path == p
  }

  ghost predicate LockOk(s: State)
  {
    match s.lock
    case Free => true
    case Entered(p, _) => p in s.entries
    case Missed(p, _) => p in s.entries && Expired(s, s.entries[p])
    case Opened(p, h, o) => IsLive(s, o) && s.objects[o].path == p && h in s.handles && s.handles[h] == o
    case Leaving(r) => r.Some? ==> r.value in s.handles
    case Deleting(o) => o < |s.objects| && s.objects[o].phase == Zombie
    case Closing(o) => o < |s.objects| && s.objects[o].phase == Zombie
  }

  ghost predicate KeysOk(s: State)
  {
    forall p :: p in s.entries && s.entries[p].None? ==> p in s.failed || InProgress(s.lock, p)
  }

  ghost predicate Inv(s: State)
  {
    HandlesOk(s) && EntriesOk(s) && LiveOk(s) && TableOk(s) && LockOk(s) && KeysOk(s)
  }

  lemma InitInv(s: State)
    requires Init(s)
    ensures Inv(s)
  {
  }

  /** Steps that neither make objects nor change their phase or the handles. */
  lemma StepInvQuiet(s: State, e: Event)
    requires Inv(s) && Step(s, e).Some?
    requires e.Enter? || e.Release? || e.BeginDelete? || e.OutsideOpen? || e.OutsideClose?
    ensures Inv(Step(s, e).value)
  {
    var t := Step(s, e).value;
    assert t.objects == s.objects && t.handles == s.handles;
    assert forall o: nat :: IsLive(t, o) == IsLive(s, o);
  }

  lemma StepInvLock(s: State, h: nat)
    requires Inv(s) && Step(s, LockWeak(h)).Some?
    ensures Inv(Step(s, LockWeak(h)).value)
  {
    var t := Step(s, LockWeak(h)).value;
    assert forall o: nat :: IsLive(t, o) == IsLive(s, o);
    forall o: nat | IsLive(t, o)
      ensures o in t.handles.Values
    {
      var k :| k in s.handles && s.handles[k] == o;
      assert t.handles[k] == o;
    }
  }

  lemma StepInvPublish(s: State)
    requires Inv(s) && Step(s, Publish).Some?
    ensures Inv(Step(s, Publish).value)
  {
    var t := Step(s, Publish).value;
    assert t.objects == s.objects && t.handles == s.handles;
    assert forall o: nat :: IsLive(t, o) == IsLive(s, o);
  }

  lemma StepInvOpen(s: State, e: Event)
    requires Inv(s) && Step(s, e).Some? && e.Open?
    ensures Inv(Step(s, e).value)
  {
    var t := Step(s, e).value;
    if e.acquired.Some? {
      var n := |s.objects|;
      assert forall o: nat :: IsLive(t, o) <==> IsLive(s, o) || o == n;
      forall o: nat | IsLive(t, o)
        ensures o in t.handles.Values
      {
        if o == n {
          assert t.handles[e.handle] == n;
        } else {
          var h :| h in s.handles && s.handles[h] == o;
          assert t.handles[h] == o;
        }
      }
      assert HandlesOk(t);
      assert TableOk(t);
    }
  }

  lemma StepInvCopy(s: State, h: nat, c: nat)
    requires Inv(s) && Step(s, Copy(h, c)).Some?
    ensures Inv(Step(s, Copy(h, c)).value)
  {
    var t := Step(s, Copy(h, c)).value;
    assert forall o: nat :: IsLive(t, o) == IsLive(s, o);
    forall o: nat | IsLive(t, o)
      ensures o in t.handles.Values
    {
      var k :| k in s.handles && s.handles[k] == o;
      assert t.handles[k] == o;
    }
  }

  /** A drop that leaves other holders. */
  lemma StepInvDropOne(s: State, h: nat)
    requires Inv(s) && Step(s, Drop(h)).Some? && s.handles[h] in (s.handles - {h}).Values
    ensures Inv(Step(s, Drop(h)).value)
  {
    var t := Step(s, Drop(h)).value;
    assert t == s.(handles := s.handles - {h});
    assert forall o: nat :: IsLive(t, o) == IsLive(s, o);
    forall o: nat | IsLive(t, o)
      ensures o in t.handles.Values
    {
      var k :| k in s.handles && s.handles[k] == o;
      if k != h {
        assert k in t.handles && t.handles[k] == o;
      }
    }
  }

  lemma DropLastHandles(s: State, h: nat)
    requires Inv(s) && Step(s, Drop(h)).Some? && s.handles[h] !in (s.handles - {h}).Values
    ensures var t, x := Step(s, Drop(h)).value, s.handles[h];
            && t == SetPhase(s.(handles := s.handles - {h}), x, Zombie)
            && (forall o: nat :: IsLive(t, o) <==> IsLive(s, o) && o != x)
            && (forall k :: k in t.handles ==> t.handles[k] != x)
            && HandlesOk(t)
  {
    var t, x := Step(s, Drop(h)).value, s.handles[h];
    assert t == SetPhase(s.(handles := s.handles - {h}), x, Zombie);
    forall k | k in t.handles
      ensures t.handles[k] != x
    {
      assert t.handles[k] in t.handles.Values;
    }
    forall o: nat | IsLive(t, o)
      ensures o in t.handles.Values
    {
      assert IsLive(s, o);
      var k :| k in s.handles && s.handles[k] == o;
      assert k in t.handles && t.handles[k] == o;
    }
  }

  /** The drop of the last holder. */
  lemma StepInvDropLast(s: State, h: nat)
    requires Inv(s) && Step(s, Drop(h)).Some? && s.handles[h] !in (s.handles - {h}).Values
    ensures Inv(Step(s, Drop(h)).value)
  {
    DropLastHandles(s, h);
    hide Step, HandlesOk;
    var t := Step(s, Drop(h)).value;
    if s.lock.Opened? {
      assert t.handles[s.lock.handle] == s.lock.o;
    }
  }

  lemma StepInvErase(s: State)
    requires Inv(s) && Step(s, EraseExpired).Some?
    ensures Inv(Step(s, EraseExpired).value)
  {
    var t := Step(s, EraseExpired).value;
    assert t.objects == s.objects && t.handles == s.handles;
    assert forall o: nat :: IsLive(t, o) == IsLive(s, o);
  }

  lemma StepInvClose(s: State)
    requires Inv(s) && Step(s, Close).Some?
    ensures Inv(Step(s, Close).value)
  {
    var t := Step(s, Close).value;
    assert t.handles == s.handles && t.entries == s.entries;
    assert forall o: nat :: IsLive(t, o) == IsLive(s, o);
    assert TableOk(t);
  }

  lemma StepInv(s: State, e: Event)
    requires Inv(s) && Step(s, e).Some?
    ensures Inv(Step(s, e).value)
  {
    hide Inv;
    match e
    case LockWeak(h) => StepInvLock(s, h);
    case Open(_, _) => StepInvOpen(s, e);
    case Publish => StepInvPublish(s);
    case Copy(h, c) => StepInvCopy(s, h, c);
    case Drop(h) =>
      if s.handles[h] in (s.handles - {h}).Values {
        StepInvDropOne(s, h);
      } else {
        StepInvDropLast(s, h);
      }
    case EraseExpired => StepInvErase(s);
    case Close => StepInvClose(s);
    case _ => StepInvQuiet(s, e);
  }

  lemma {:induction false} RunInv(s: State, es: seq<Event>)
    requires Inv(s) && Run(s, es).Some?
    ensures Inv(Run(s, es).value)
    decreases |es|
  {
    hide Step, Inv;
    if es != [] {
      StepInv(s, es[0]);
      RunInv(Step(s, es[0]).value, es[1..]);
    }
  }

  // ------------------------------------------------- sharing and safety

  ghost predicate Reachable(s: State)
  {
    exists init: State, es: seq<Event> :: Init(init) && Run(init, es) == Some(s)
  }

  lemma ReachableInv(s: State)
    requires Reachable(s)
    ensures Inv(s)
  {
    hide Inv, Run;
    var init: State, es: seq<Event> :| Init(init) && Run(init, es) == Some(s);
    InitInv(init);
    RunInv(init, es);
  }

  /** Under every interleaving a path has at most one live object, so any two holders of the
      same path share one object and one descriptor number. */
  lemma HoldersShare(s: State, h: nat, k: nat)
    requires Reachable(s) && h in s.handles && k in s.handles
    ensures s.handles[h] < |s.objects| && s.handles[k] < |s.objects|
    ensures s.objects[s.handles[h]].path == s.objects[s.handles[k]].path <==> s.handles[h] == s.handles[k]
    ensures s.objects[s.handles[h]].number == s.objects[s.handles[k]].number <==> s.handles[h] == s.handles[k]
  {
    ReachableInv(s);
  }

  lemma LookupHitsInv(s: State, o: nat, length: nat, h: nat)
    requires Inv(s) && s.lock == Free && IsLive(s, o) && h !in s.handles
    ensures var p := s.objects[o].path;
            && p in s.entries && s.entries[p] == Some(o)
            && Run(s, [Enter(p, length), LockWeak(h), Release]) == Some(s.(handles := s.handles[h := o]))
  {
    var p := s.objects[o].path;
    assert LiveOk(s);
    var a := s.(lock := Entered(p, length));
    var b := s.(handles := s.handles[h := o], lock := Leaving(Some(h)));
    assert Step(s, Enter(p, length)) == Some(a);
    assert Step(a, LockWeak(h)) == Some(b);
    RunThree(s, Enter(p, length), LockWeak(h), Release, a, b);
  }

  /** Whenever the mutex is free, the entry of a path with a live object refers to it, and a
      lookup returns it without opening anything. */
  lemma LookupHits(s: State, o: nat, length: nat, h: nat)
    requires Reachable(s) && s.lock == Free && IsLive(s, o) && h !in s.handles
    ensures var p := s.objects[o].path;
            && p in s.entries && s.entries[p] == Some(o)
            && Run(s, [Enter(p, length), LockWeak(h), Release]) == Some(s.(handles := s.handles[h := o]))
  {
    ReachableInv(s);
    LookupHitsInv(s, o, length, h);
  }

  lemma RunThree(s: State, x: Event, y: Event, z: Event, a: State, b: State)
    requires Step(s, x) == Some(a) && Step(a, y) == Some(b)
    ensures Run(s, [x, y, z]) == Step(b, z)
  {
    hide Step;
    assert [x, y, z][1..] == [y, z] && [y, z][1..] == [z] && [z][1..] == [];
    assert Run(b, [z]) == Step(b, z);
    assert Run(a, [y, z]) == Run(b, [z]);
  }

  /** No step takes the entry of an object that stays live: in particular the late deleter of an
      older object never removes a newer live entry, whichever way the two deleters and the
      lookup in between are scheduled. */
  lemma LiveEntryStays(s: State, e: Event, p: Path, o: nat)
    requires Reachable(s) && Step(s, e).Some?
    requires p in s.entries && s.entries[p] == Some(o) && IsLive(Step(s, e).value, o)
    ensures p in Step(s, e).value.entries && Step(s, e).value.entries[p] == Some(o)
  {
    ReachableInv(s);
    if e.Open? {
      assert IsLive(s, o);
    }
  }

  // --------------------------------------------------- released at most once

  /** Objects are never forgotten, keep what they were made with, and only move from Live to
      Zombie to Closed. */
  ghost predicate Later(s: State, t: State)
  {
    && |s.objects| <= |t.objects|
    && forall o: nat :: o < |s.objects| ==>
         && t.objects[o] == s.objects[o].(phase := t.objects[o].phase)
         && (s.objects[o].phase == Closed ==> t.objects[o].phase == Closed)
         && (s.objects[o].phase == Zombie ==> t.objects[o].phase != Live)
  }

  lemma StepLater(s: State, e: Event)
    requires Inv(s) && Step(s, e).Some?
    ensures Later(s, Step(s, e).value)
  {
    match e
    case Drop(h) => assert IsLive(s, s.handles[h]);
    case _ =>
  }

  lemma LaterTrans(s: State, t: State, u: State)
    requires Later(s, t) && Later(t, u)
    ensures Later(s, u)
  {
  }

  lemma {:induction false} RunLater(s: State, es: seq<Event>)
    requires Inv(s) && Run(s, es).Some?
    ensures Later(s, Run(s, es).value)
    decreases |es|
  {
    if es != [] {
      hide Step, Inv, Later;
      StepInv(s, es[0]);
      StepLater(s, es[0]);
      RunLater(Step(s, es[0]).value, es[1..]);
      LaterTrans(s, Step(s, es[0]).value, Run(s, es).value);
    }
  }

  /** Over whole runs an object keeps its path, number and length, is never used again once its last
      reference is gone, and stays closed once closed. */
  lemma ObjectsAge(s: State, es: seq<Event>, o: nat)
    requires Reachable(s) && Run(s, es).Some? && o < |s.objects|
    ensures var t := Run(s, es).value;
            && o < |t.objects| && t.objects[o] == s.objects[o].(phase := t.objects[o].phase)
            && (IsLive(t, o) ==> IsLive(s, o))
            && (IsClosed(s, o) ==> IsClosed(t, o))
            && (!IsLive(s, o) ==> o !in t.handles.Values)
  {
    ReachableInv(s);
    RunInv(s, es);
    RunLater(s, es);
    var t := Run(s, es).value;
    assert HandlesOk(t);
  }

  predicate Closes(s: State, e: Event, o: nat)
  {
    e == Close && s.lock == Closing(o)
  }

  /** How often a run executes the close (or munmap) of object o. */
  function CloseCount(s: State, es: seq<Event>, o: nat): nat
    decreases |es|
  {
    if es == [] || Step(s, es[0]).None? then 0
    else (if Closes(s, es[0], o) then 1 else 0) + CloseCount(Step(s, es[0]).value, es[1..], o)
  }

  predicate IsClosed(s: State, o: nat)
  {
    o < |s.objects| && s.objects[o].phase == Closed
  }

  lemma StepCloses(s: State, e: Event, o: nat)
    requires Inv(s) && Step(s, e).Some?
    ensures Closes(s, e, o) ==> !IsClosed(s, o)
    ensures IsClosed(Step(s, e).value, o) <==> IsClosed(s, o) || Closes(s, e, o)
  {
    match e
    case Drop(h) => assert IsLive(s, s.handles[h]);
    case _ =>
  }

  lemma {:induction false} CloseCountIs(s: State, es: seq<Event>, o: nat)
    requires Inv(s) && Run(s, es).Some?
    ensures CloseCount(s, es, o) == if IsClosed(Run(s, es).value, o) && !IsClosed(s, o) then 1 else 0
    ensures IsClosed(s, o) ==> IsClosed(Run(s, es).value, o)
    decreases |es|
  {
    hide Step, Inv, IsClosed, Closes;
    if es != [] {
      StepInv(s, es[0]);
      StepCloses(s, es[0], o);
      CloseCountIs(Step(s, es[0]).value, es[1..], o);
    }
  }

  /** In every run each object is released at most once, and it counts as closed exactly then. */
  lemma ReleasedAtMostOnce(init: State, es: seq<Event>, o: nat)
    requires Init(init) && Run(init, es).Some?
    ensures CloseCount(init, es, o) == if IsClosed(Run(init, es).value, o) then 1 else 0
  {
    InitInv(init);
    CloseCountIs(init, es, o);
  }

  /** A release comes after the last holder has gone, and it hits a number that is still this
      object's own: neither an outside descriptor nor another object's reused number. */
  lemma ReleaseHitsOwn(s: State, o: nat)
    requires Reachable(s) && s.lock == Closing(o)
    ensures o < |s.objects| && s.objects[o].phase == Zombie && o !in s.handles.Values
    ensures var n := s.objects[o].number;
            && n in s.table && s.table[n] == Cache(o)
            && Step(s, Close).Some? && Step(s, Close).value.table == s.table - {n}
  {
    ReachableInv(s);
    assert forall h :: h in s.handles ==> IsLive(s, s.handles[h]);
  }

  /** The numbers of distinct unreleased objects are distinct, whatever numbers the kernel reuses. */
  lemma NumbersDistinct(s: State, a: nat, b: nat)
    requires Reachable(s) && a < |s.objects| && b < |s.objects| && a != b
    requires !IsClosed(s, a) && !IsClosed(s, b)
    ensures s.objects[a].number != s.objects[b].number
  {
    ReachableInv(s);
  }

  /** The server never touches a number it does not own. */
  lemma OutsideUntouched(s: State, e: Event, n: int)
    requires Reachable(s) && Step(s, e).Some? && n in s.table && s.table[n] == Outside && e != OutsideClose(n)
    ensures n in Step(s, e).value.table && Step(s, e).value.table[n] == Outside
  {
    ReachableInv(s);
    if e.Close? {
      assert s.table[s.objects[s.lock.o].number] == Cache(s.lock.o);
    }
  }

  // -------------------------------------------------- nothing is left over

  /** The keys of the map are paths of unreleased objects, paths that failed to open, or the
      path a lookup is busy with. */
  lemma KeysAccounted(s: State, p: Path)
    requires Reachable(s) && p in s.entries
    ensures p in s.failed || InProgress(s.lock, p) ||
            exists o: nat :: o < |s.objects| && s.objects[o].path == p && s.objects[o].phase != Closed
  {
    ReachableInv(s);
    if s.entries[p].Some? {
      assert s.objects[s.entries[p].value].path == p;
    }
  }

  ghost predicate Quiet(s: State)
  {
    s.lock == Free && s.handles == map[] && forall o: nat :: o < |s.objects| ==> s.objects[o].phase != Zombie
  }

  /** When no holder and no deleter is left, everything the cache opened is closed, and the map
      keeps only entries of paths that failed to open. */
  lemma QuietMeansReleased(s: State)
    requires Reachable(s) && Quiet(s)
    ensures forall o: nat :: o < |s.objects| ==> IsClosed(s, o)
    ensures forall n :: n in s.table ==> s.table[n] == Outside
    ensures s.entries.Keys <= s.failed
  {
    ReachableInv(s);
    forall o: nat | o < |s.objects|
      ensures IsClosed(s, o)
    {
      assert !IsLive(s, o);
    }
    assert forall n :: n in s.table && s.table[n].Cache? ==> !IsClosed(s, s.table[n].o);
    assert forall p :: p in s.entries && s.entries[p].Some? ==> !IsClosed(s, s.entries[p].value);
  }

  // ------------------------------------------------- deleters always finish

  /** The four steps of a deleter, and what they do together. */
  function DeleterSteps(o: nat): seq<Event>
  {
    [BeginDelete(o), EraseExpired, Close, Release]
  }

  lemma RunFour(s: State, w: Event, x: Event, y: Event, z: Event, a: State, b: State, c: State)
    requires Step(s, w) == Some(a) && Step(a, x) == Some(b) && Step(b, y) == Some(c)
    ensures Run(s, [w, x, y, z]) == Step(c, z)
  {
    hide Step;
    assert [w, x, y, z][1..] == [x, y, z];
    RunThree(a, x, y, z, b, c);
  }

  /** The map after a deleter for path `p` has looked at it. */
  function WithoutExpired(s: State, p: Path): map<Path, Option<nat>>
  {
    if p in s.entries && Expired(s, s.entries[p]) then s.entries - {p} else s.entries
  }

  lemma EraseStep(s: State, o: nat)
    requires o < |s.objects|
    ensures Step(s.(lock := Deleting(o)), EraseExpired) ==
            Some(s.(entries := WithoutExpired(s, s.objects[o].path), lock := Closing(o)))
  {
    assert forall w :: Expired(s.(lock := Deleting(o)), w) == Expired(s, w);
  }

  lemma DeleterRuns(s: State, o: nat)
    requires s.lock == Free && o < |s.objects| && s.objects[o].phase == Zombie
    ensures Run(s, DeleterSteps(o)) ==
            Some(SetPhase(s, o, Closed).(entries := WithoutExpired(s, s.objects[o].path), table := s.table - {s.objects[o].number}))
  {
    hide Run, WithoutExpired;
    var a := s.(lock := Deleting(o));
    var b := s.(entries := WithoutExpired(s, s.objects[o].path), lock := Closing(o));
    var c := SetPhase(b, o, Closed).(table := b.table - {b.objects[o].number}, lock := Leaving(None));
    EraseStep(s, o);
    RunFour(s, BeginDelete(o), EraseExpired, Close, Release, a, b, c);
  }

  function ZombieCount(objects: seq<Object>): nat
    decreases |objects|
  {
    if objects == [] then 0
    else (if objects[|objects| - 1].phase == Zombie then 1 else 0) + ZombieCount(objects[..|objects| - 1])
  }

  lemma {:induction false} ZombieCountLess(objects: seq<Object>, o: nat)
    requires o < |objects| && objects[o].phase == Zombie
    ensures ZombieCount(objects[o := objects[o].(phase := Closed)]) == ZombieCount(objects) - 1
    decreases |objects|
  {
    var less := objects[o := objects[o].(phase := Closed)];
    var n := |objects| - 1;
    if o < n {
      ZombieCountLess(objects[..n], o);
      assert less[..n] == objects[..n][o := objects[o].(phase := Closed)];
    } else {
      assert less[..n] == objects[..n];
    }
  }

  lemma {:induction false} RunAppend(s: State, a: seq<Event>, b: seq<Event>)
    requires Run(s, a).Some?
    ensures Run(s, a + b) == Run(Run(s, a).value, b)
    decreases |a|
  {
    hide Step;
    if a == [] {
      assert a + b == b;
    } else {
      assert (a + b)[1..] == a[1..] + b;
      RunAppend(Step(s, a[0]).value, a[1..], b);
    }
  }

  lemma {:induction false} DrainFrom(s: State) returns (es: seq<Event>)
    requires Inv(s) && s.lock == Free && s.handles == map[]
    ensures Run(s, es).Some? && Quiet(Run(s, es).value)
    decreases ZombieCount(s.objects)
  {
    hide Step;
    if o: nat :| o < |s.objects| && s.objects[o].phase == Zombie {
      DeleterRuns(s, o);
      RunInv(s, DeleterSteps(o));
      ZombieCountLess(s.objects, o);
      var more := DrainFrom(Run(s, DeleterSteps(o)).value);
      es := DeleterSteps(o) + more;
      RunAppend(s, DeleterSteps(o), more);
    } else {
      es := [];
    }
  }

  /** How many steps the one inside the mutex has still to make. */
  function StagesLeft(l: Lock): nat
  {
    match l
    case Free => 0
    case Leaving(_) => 1
    case Missed(_, _) => 2
    case Closing(_) => 2
    case Entered(_, _) => 3
    case Deleting(_) => 3
    case Opened(_, _, _) => 4
  }

  /** Without references whoever is inside the mutex can leave it: a lookup finds nothing, and if its
      open fails it returns null; a deleter goes on to its close. */
  lemma Leaves(s: State, h: nat) returns (es: seq<Event>)
    requires Inv(s) && s.handles == map[]
    ensures Run(s, es).Some?
    ensures var t := Run(s, es).value; Inv(t) && t.lock == Free && t.handles == map[]
    decreases StagesLeft(s.lock)
  {
    if s.lock == Free {
      es := [];
    } else {
      var e := match s.lock case Entered(_, _) => LockWeak(h) case Missed(_, _) => Open(None, h)
               case Deleting(_) => EraseExpired case Closing(_) => Close case _ => Release;
      NobodyHolds(s, h);
      StepInv(s, e);
      var t := Step(s, e).value;
      var more := Leaves(t, h);
      es := [e] + more;
      assert es[1..] == more;
    }
  }

  lemma NobodyHolds(s: State, h: nat)
    requires Inv(s) && s.handles == map[]
    ensures !s.lock.Opened? && (s.lock.Leaving? ==> s.lock.result == None)
    ensures s.lock.Entered? ==> Step(s, LockWeak(h)) == Some(s.(lock := Missed(s.lock.path, s.lock.length)))
  {
    assert forall o: nat :: !IsLive(s, o);
  }

  /** Nothing can get stuck: from any reachable state without references, whatever stage a lookup or
      a deleter has reached inside the mutex, that one can leave and the pending deleters can run, in
      any order they come, and then everything is released. */
  lemma Drains(s: State)
    requires Reachable(s) && s.handles == map[]
    ensures exists es :: Run(s, es).Some? && Quiet(Run(s, es).value)
  {
    hide Run, Inv, Quiet;
    ReachableInv(s);
    var es := Leaves(s, 0);
    var more := DrainFrom(Run(s, es).value);
    RunAppend(s, es, more);
  }

  lemma FailedOpenRuns(s: State, p: Path, length: nat, h: nat)
    requires Inv(s) && s.lock == Free && h !in s.handles
    requires forall o: nat :: IsLive(s, o) ==> s.objects[o].path != p
    ensures var t := s.(entries := if p in s.entries then s.entries else s.entries[p := None], failed := s.failed + {p});
            Run(s, [Enter(p, length), LockWeak(h), Open(None, h), Release]) == Some(t) && Inv(t)
  {
    hide Run;
    var a := s.(entries := if p in s.entries then s.entries else s.entries[p := None], lock := Entered(p, length));
    var b := a.(lock := Missed(p, length));
    var c := b.(failed := s.failed + {p}, lock := Leaving(None));
    assert forall o: nat :: IsLive(a, o) == IsLive(s, o);
    assert Step(a, LockWeak(h)) == Some(b);
    RunFour(s, Enter(p, length), LockWeak(h), Open(None, h), Release, a, b, c);
    RunInv(s, [Enter(p, length), LockWeak(h), Open(None, h), Release]);
  }

  /** A failed open leaves an entry behind, an empty one where there was none: the one kind of key no
      object accounts for. */
  lemma FailedOpenLeavesEntry(s: State, p: Path, length: nat, h: nat)
    requires Reachable(s) && s.lock == Free && h !in s.handles
    requires forall o: nat :: IsLive(s, o) ==> s.objects[o].path != p
    ensures Run(s, [Enter(p, length), LockWeak(h), Open(None, h), Release]) ==
            Some(s.(entries := if p in s.entries then s.entries else s.entries[p := None], failed := s.failed + {p}))
  {
    hide Run, Inv;
    ReachableInv(s);
    FailedOpenRuns(s, p, length, h);
  }
}
