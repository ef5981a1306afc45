/** GetFd, GetAddr and their deleters as the code runs them when nobody interferes, tied to
    the steps of ResourceCache that any other thread may interleave with. */
module HttpServerCache {
  import opened Text
  import opened ResourceCache

  /** One of the server's two caches. The same protocol serves descriptors (`length` 0) and
      mappings; `descriptors` are the process's open descriptor numbers, which GetAddr uses
      only between its open and its close. */
  class HttpServer {
    var entries: map<Path, Option<nat>>
    var objects: seq<Object>
    var handles: map<nat, nat>
    var table: map<int, Owner>
    var failed: set<Path>
    var descriptors: set<int>

    constructor (outside: set<int>)
      ensures Init(View()) && View().table.Keys == outside
    {
      entries := map[];
      objects := [];
      handles := map[];
      table := map n | n in outside :: Outside;
      failed := {};
      descriptors := {};
    }

    /** The state with nobody inside the mutex. */
    function View(): State
      reads this
    {
      State(entries, objects, handles, table, failed, Free)
    }

    /** Somebody holds a reference to the path's resource. */
    ghost predicate Holds(path: Path)
      reads this
    {
      exists o: nat :: IsLive(View(), o) && objects[o].path == path
    }

    /** map[path], then lock(): the common beginning. */
    method Lookup(path: Path, handle: nat) returns (found: bool)
      requires Inv(View()) && handle !in handles
      modifies this`entries, this`handles
      ensures found <==> old(Holds(path))
      ensures found ==> handle in handles && IsLive(View(), handles[handle]) && objects[handles[handle]].path == path
                        && View() == old(View()).(handles := old(handles)[handle := handles[handle]])
      ensures !found ==> View() == old(View()).(entries := entries)
                         && entries == if path in old(entries) then old(entries) else old(entries)[path := None]
    {
      if path !in entries {
        entries := entries[path := None];
      }
      var w := entries[path];
      if !Expired(View(), w) {
        handles := handles[handle := w.value];
        assert IsLive(old(View()), w.value);
        return true;
      }
      found := false;
    }

    /** The branch of a getter behind a failed lock(); `s` is the state the call began in. */
    method Fill(ghost s: State, path: Path, length: nat, number: Option<int>, handle: nat) returns (r: Option<nat>)
      requires Inv(s) && s.lock == Free && handle !in handles && (number.Some? ==> number.value !in table)
      requires forall o: nat :: IsLive(s, o) ==> s.objects[o].path != path
      requires View() == s.(entries := entries)
      requires entries == if path in s.entries then s.entries else s.entries[path := None]
      modifies this`entries, this`objects, this`handles, this`table, this`failed
      ensures Inv(View()) && Run(s, GetSteps(false, path, length, number, handle)) == Some(View())
      ensures r == if number.Some? then Some(handle) else None
      ensures number.Some? ==> objects == s.objects + [Object(path, number.value, length, Live)]
                               && handles == s.handles[handle := |s.objects|]
    {
      hide Run, Inv;
      if number.None? {
        failed := failed + {path};
        FailedOpenRuns(s, path, length, handle);
        r := None;
      } else {
        objects := objects + [Object(path, number.value, length, Live)];
        handles := handles[handle := |objects| - 1];
        table := table[number.value := Cache(|objects| - 1)];
        entries := entries[path := Some(|objects| - 1)];
        OpenRuns(s, path, length, handle, number.value);
        assert entries == s.entries[path := Some(|s.objects|)];
        r := Some(handle);
      }
    }

    /** `number` is what open returns, None for a failure. */
    method GetFd(path: Path, number: Option<int>, handle: nat) returns (fd: Option<nat>)
      requires Inv(View()) && handle !in handles && (number.Some? ==> number.value !in table)
      modifies this
      ensures Inv(View()) && Run(old(View()), GetSteps(old(Holds(path)), path, 0, number, handle)) == Some(View())
      ensures fd == if old(Holds(path)) || number.Some? then Some(handle) else None
      ensures old(Holds(path)) ==> handle in handles && IsLive(View(), handles[handle])
                                   && objects == old(objects) && objects[handles[handle]].path == path
      ensures !old(Holds(path)) && number.Some? ==> objects == old(objects) + [Object(path, number.value, 0, Live)]
                                                    && handles == old(handles)[handle := |old(objects)|]
      ensures descriptors == old(descriptors)
    {
      ghost var s := View();
      var found := Lookup(path, handle);
      if found {
        LookupHitRuns(s, path, 0, handle, handles[handle]);
        return Some(handle);
      }
      fd := Fill(s, path, 0, number, handle);
    }

    /** `fd` and `address` are what open and mmap return. Whatever happens, the descriptor is
        closed again. On a hit the caller's length plays no part: the mapping keeps the length it
        was made with. */
    method GetAddr(path: Path, length: nat, fd: Option<int>, address: Option<int>, handle: nat) returns (addr: Option<nat>)
      requires Inv(View()) && handle !in handles
      requires (fd.Some? ==> fd.value !in descriptors) && (address.Some? ==> address.value !in table)
      modifies this
      ensures var mapped := if fd.None? then None else address;
              && addr == (if old(Holds(path)) || mapped.Some? then Some(handle) else None)
              && Inv(View()) && Run(old(View()), GetSteps(old(Holds(path)), path, length, mapped, handle)) == Some(View())
              && (!old(Holds(path)) && mapped.Some? ==> objects == old(objects) + [Object(path, mapped.value, length, Live)]
                                                        && handles == old(handles)[handle := |old(objects)|])
      ensures old(Holds(path)) ==> handle in handles && IsLive(View(), handles[handle])
                                   && objects == old(objects) && objects[handles[handle]].path == path
      ensures descriptors == old(descriptors)
    {
      hide Run, Inv;
      ghost var s := View();
      var found := Lookup(path, handle);
      if found {
        LookupHitRuns(s, path, length, handle, handles[handle]);
        return Some(handle);
      }
      if fd.None? {
        addr := Fill(s, path, length, None, handle);
        return;
      }
      descriptors := descriptors + {fd.value};
      if address.Some? {
        descriptors := descriptors - {fd.value}; // inside Mmap
      } else {
        descriptors := descriptors - {fd.value}; // close(fd)
      }
      addr := Fill(s, path, length, address, handle);
    }

    /** Copying a reference, as the write-complete callbacks do that go on using it. */
    method CopyReference(handle: nat, copy: nat)
      requires Inv(View()) && handle in handles && copy !in handles
      modifies this`handles
      ensures Inv(View()) && Step(old(View()), Copy(handle, copy)) == Some(View())
      ensures handles == old(handles)[copy := old(handles)[handle]]
    {
      ghost var s := View();
      handles := handles[copy := handles[handle]];
      StepInv(s, Copy(handle, copy));
    }

    /** Dropping a reference: one atomic decrement outside the mutex. */
    method DropReference(handle: nat) returns (last: bool)
      requires Inv(View()) && handle in handles
      modifies this`handles, this`objects
      ensures Inv(View()) && Step(old(View()), Drop(handle)) == Some(View())
      ensures last <==> objects[old(handles[handle])].phase == Zombie
      ensures handles == old(handles) - {handle} && (last <==> old(handles[handle]) !in handles.Values)
    {
      ghost var s := View();
      var o := handles[handle];
      handles := handles - {handle};
      last := o !in handles.Values;
      if last {
        objects := objects[o := objects[o].(phase := Zombie)];
      }
      StepInv(s, Drop(handle));
    }

    /** The deleter of object `o`, run by whoever dropped the last reference. */
    method Deleter(o: nat)
      requires Inv(View()) && o < |objects| && objects[o].phase == Zombie
      modifies this`entries, this`objects, this`table
      ensures Inv(View()) && Run(old(View()), DeleterSteps(o)) == Some(View())
      ensures objects == old(objects)[o := old(objects)[o].(phase := Closed)]
      ensures table == old(table) - {objects[o].number}
      ensures forall p :: p in old(entries) && p !in entries ==> p == objects[o].path && !old(Holds(p))
    {
      ghost var s := View();
      DeleterRuns(s, o);
      RunInv(s, DeleterSteps(o));
      var p := objects[o].path;
      if p in entries && Expired(View(), entries[p]) {
        entries := entries - {p};
      }
      table := table - {objects[o].number};
      objects := objects[o := objects[o].(phase := Closed)];
    }
  }

  /** What one undisturbed getter does, step by step. */
  function GetSteps(hit: bool, path: Path, length: nat, number: Option<int>, h: nat): seq<Event>
  {
    if hit then [Enter(path, length), LockWeak(h), Release]
    else if number.None? then [Enter(path, length), LockWeak(h), Open(None, h), Release]
    else [Enter(path, length), LockWeak(h), Open(number, h), Publish, Release]
  }

  lemma LookupHitRuns(s: State, p: Path, length: nat, h: nat, o: nat)
    requires Inv(s) && s.lock == Free && h !in s.handles && IsLive(s, o) && s.objects[o].path == p
    ensures Run(s, [Enter(p, length), LockWeak(h), Release]) == Some(s.(handles := s.handles[h := o]))
    ensures Inv(s.(handles := s.handles[h := o]))
    ensures s.entries == s.entries[p := Some(o)]
  {
    LookupHitsInv(s, o, length, h);
    RunInv(s, [Enter(p, length), LockWeak(h), Release]);
  }

  lemma OpenRuns(s: State, p: Path, length: nat, h: nat, n: int)
    requires Inv(s) && s.lock == Free && h !in s.handles && n !in s.table
    requires forall o: nat :: IsLive(s, o) ==> s.objects[o].path != p
    ensures var o := |s.objects|;
            var t := s.(entries := s.entries[p := Some(o)], objects := s.objects + [Object(p, n, length, Live)],
                        handles := s.handles[h := o], table := s.table[n := Cache(o)]);
            Run(s, [Enter(p, length), LockWeak(h), Open(Some(n), h), Publish, Release]) == Some(t) && Inv(t)
  {
    hide Run, Inv;
    var o := |s.objects|;
    var es := if p in s.entries then s.entries else s.entries[p := None];
    var a := s.(entries := es, lock := Entered(p, length));
    var b := a.(lock := Missed(p, length));
    var c := b.(objects := s.objects + [Object(p, n, length, Live)], handles := s.handles[h := o],
                table := s.table[n := Cache(o)], lock := Opened(p, h, o));
    var d := c.(entries := s.entries[p := Some(o)], lock := Leaving(Some(h)));
    MissStep(s, p, length, h);
    assert c.entries[p := Some(o)] == s.entries[p := Some(o)];
    RunFour(a, LockWeak(h), Open(Some(n), h), Publish, Release, b, c, d);
    var rest := [LockWeak(h), Open(Some(n), h), Publish, Release];
    var all := [Enter(p, length), LockWeak(h), Open(Some(n), h), Publish, Release];
    assert all == [Enter(p, length)] + rest;
    RunCons(s, Enter(p, length), rest, a);
    RunInv(s, all);
  }

  lemma RunCons(s: State, e: Event, es: seq<Event>, a: State)
    requires Step(s, e) == Some(a)
    ensures Run(s, [e] + es) == Run(a, es)
  {
    hide Step;
    assert ([e] + es)[1..] == es;
  }

  lemma MissStep(s: State, p: Path, length: nat, h: nat)
    requires Inv(s) && s.lock == Free && h !in s.handles
    requires forall o: nat :: IsLive(s, o) ==> s.objects[o].path != p
    ensures var a := s.(entries := if p in s.entries then s.entries else s.entries[p := None], lock := Entered(p, length));
            Step(s, Enter(p, length)) == Some(a) && Step(a, LockWeak(h)) == Some(a.(lock := Missed(p, length)))
  {
    var a := s.(entries := if p in s.entries then s.entries else s.entries[p := None], lock := Entered(p, length));
    assert EntriesOk(s);
    assert forall o: nat :: IsLive(a, o) == IsLive(s, o);
  }
}
