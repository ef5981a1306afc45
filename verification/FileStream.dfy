/** HttpSession's file streaming. */
module FileStream {
  // One response head with the first part of the file, then one write-complete callback after
  // another, under any short reads the kernel chooses.

  import opened Text
  import HttpResponse

  const BUFFER: nat := 0x1_0000 // kFileBufferSize_

  const TWO64: nat := 0x1_0000_0000_0000_0000

  const MAX_OFFSET: nat := 0x7FFF_FFFF_FFFF_FFFF

  /** What is registered with the connection. */
  datatype Callback = NoCallback | SendFileNext | SendMmapNext | LastWrite

  datatype Ending = StillOpen | KeepAliveTimer | WriteShutdown

  /** The result of one pread. */
  datatype Read = Bytes(n: nat) | ReadError

  /** `fault`: the code went on with a count of -1, or sent bytes from outside the mapping. */
  datatype Session = Session(
    cur: nat,   // cur_filesize_
    cache: nat, // cache_filesize_
    callback: Callback,
    sent: string,
    ending: Ending,
    failed: bool,
    fault: bool)

  const FRESH_SESSION := Session(0, 0, NoCallback, "", StillOpen, false, false)

  /** What pread(fd, buf, count, offset) may return on an unchanging regular file: nothing only at
      the end, otherwise any positive part of what was asked for. */
  predicate ReadOk(r: Read, file: string, count: nat, offset: nat)
  {
    match r
    case ReadError => true
    case Bytes(n) =>
      if count == 0 || offset >= |file| then n == 0 else 0 < n <= count && offset + n <= |file|
  }

  /** What SendErrorResponse sends when a later pread fails. */
  function ReadErrorPage(): string
  {
    HttpResponse.ClientError(500, "Internal ServerError", "pread() error")
  }

  /** What stands in the way of serving a file; `page` is the error page. */
  datatype Access = Granted | Refused(page: string) | NotOpened(page: string)

  function Min(a: nat, b: nat): nat
  {
    if a < b then a else b
  }

  // -------------------------------------------------------------- the steps

  function Closed(s: Session, keepAlive: bool): Session
  {
    s.(ending := if keepAlive then KeepAliveTimer else WriteShutdown)
  }

  /** SendErrorResponse: the page goes out and the connection is shut down. */
  function Failed(s: Session, page: string): Session
  {
    s.(failed := true, sent := s.sent + page, ending := WriteShutdown)
  }

  /** The end of ServeFile, once the first `n` bytes of the file are in the response. */
  function Begin(s: Session, head: string, file: string, n: nat, mmap: bool): Session
    requires n <= |file|
  {
    var t := s.(cur := |file|, sent := s.sent + head + file[..n], ending := StillOpen);
    if n < |file| then t.(cache := s.cache + n, callback := if mmap then SendMmapNext else SendFileNext)
    else t.(callback := LastWrite)
  }

  /** ServeFile with pread; the first result is used unchecked. */
  function ServeWithRead(s: Session, head: string, file: string, r: Read): Session
    requires r.Bytes? ==> r.n <= |file|
  {
    match r
    case ReadError => s.(cur := |file|, fault := true)
    case Bytes(n) => Begin(s, head, file, n, false)
  }

  /** ServeFile with the mapping. */
  function ServeMapped(s: Session, head: string, file: string): Session
    requires |head| <= BUFFER
  {
    Begin(s, head, file, Min(BUFFER - |head|, |file|), true)
  }

  function ReadStep(s: Session, file: string, keepAlive: bool, r: Read): Session
    requires r.Bytes? ==> r.n == 0 || s.cache + r.n <= |file|
  {
    match r
    case ReadError => Failed(s, ReadErrorPage())
    case Bytes(n) =>
      if n == 0 then Closed(s.(callback := NoCallback), keepAlive)
      else
        s.(cache := s.cache + n, sent := s.sent + file[s.cache..s.cache + n],
           callback := if s.cur == s.cache + n then LastWrite else s.callback)
  }

  /** cur_filesize_ - cache_filesize_ on uint64_t. */
  function Left(s: Session): nat
  {
    (s.cur + TWO64 - s.cache % TWO64) % TWO64
  }

  function MappingStep(s: Session, file: string): Session
  {
    var left := Left(s);
    var n := if left > BUFFER then BUFFER else left;
    if s.cache + n > |file| then s.(fault := true)
    else if left > BUFFER then s.(cache := s.cache + n, sent := s.sent + file[s.cache..s.cache + n])
    else s.(sent := s.sent + file[s.cache..s.cache + n], callback := LastWrite)
  }

  predicate Allowed(s: Session, file: string, r: Read)
  {
    s.callback == SendFileNext ==> ReadOk(r, file, BUFFER, s.cache)
  }

  /** The connection reports that everything written so far has gone out. */
  function WriteComplete(s: Session, file: string, keepAlive: bool, r: Read): Session
    requires Allowed(s, file, r)
  {
    match s.callback
    case NoCallback => s
    case SendFileNext => ReadStep(s, file, keepAlive, r)
    case SendMmapNext => MappingStep(s, file)
    case LastWrite => Closed(s, keepAlive)
  }

  predicate Stopped(s: Session)
  {
    s.ending != StillOpen || s.failed || s.fault
  }

  /** A run of callbacks, one read each, until the response is over. */
  predicate IsRun(s: Session, file: string, keepAlive: bool, rs: seq<Read>)
    decreases |rs|
  {
    rs != [] ==> !Stopped(s) && Allowed(s, file, rs[0]) && IsRun(WriteComplete(s, file, keepAlive, rs[0]), file, keepAlive, rs[1..])
  }

  function After(s: Session, file: string, keepAlive: bool, rs: seq<Read>): Session
    requires IsRun(s, file, keepAlive, rs)
    decreases |rs|
  {
    if rs == [] then s else After(WriteComplete(s, file, keepAlive, rs[0]), file, keepAlive, rs[1..])
  }

  predicate Completed(s: Session)
  {
    s.ending != StillOpen && !s.failed && !s.fault
  }

  // --------------------------------------------------------- conservation

  function From(file: string, i: nat, j: nat): string
  {
    file[Min(Min(i, j), |file|)..Min(j, |file|)]
  }

  /** What holds between callbacks, for a response whose first part took `n` bytes and whose
      session offset was `stale` before: the bytes sent, and how far the file has come. */
  ghost predicate Streaming(s: Session, before: string, file: string, n: nat, stale: nat)
  {
    && n <= |file| && s.cur == |file| && stale + |file| <= MAX_OFFSET
    && (!s.failed && !s.fault ==>
          if n == |file| then s.callback == LastWrite && s.sent == before + file
          else
            && stale + n <= s.cache && s.cache <= (if stale + n <= |file| then |file| else stale + n)
            && (s.callback != LastWrite && s.ending == StillOpen ==>
                  s.callback in {SendFileNext, SendMmapNext} && s.sent == before + file[..n] + From(file, stale + n, s.cache))
            && (s.callback == SendFileNext && stale == 0 ==> s.cache < |file|)
            && (s.callback == LastWrite || s.ending != StillOpen ==>
                  s.sent == before + file[..n] + From(file, stale + n, |file|)
                  && s.callback in {LastWrite, NoCallback}))
  }

  lemma BeginStreams(s: Session, head: string, file: string, n: nat, mmap: bool)
    requires n <= |file| && s.cache + |file| <= MAX_OFFSET && !s.failed && !s.fault
    ensures Streaming(Begin(s, head, file, n, mmap), s.sent + head, file, n, s.cache)
    ensures !Stopped(Begin(s, head, file, n, mmap))
  {
    if n == |file| {
      assert file[..n] == file;
    } else {
      assert From(file, s.cache + n, s.cache + n) == "";
    }
  }

  lemma FromExtends(file: string, i: nat, j: nat, k: nat)
    requires i <= j <= k && k <= |file|
    ensures From(file, i, j) + file[j..k] == From(file, i, k)
  {
  }

  lemma FromBeyond(file: string, i: nat, j: nat)
    requires j >= |file|
    ensures From(file, i, j) == From(file, i, |file|)
  {
  }

  lemma ReadStreams(s: Session, before: string, file: string, n: nat, stale: nat, keepAlive: bool, r: Read)
    requires Streaming(s, before, file, n, stale) && !Stopped(s) && s.callback == SendFileNext
    requires ReadOk(r, file, BUFFER, s.cache)
    ensures Streaming(ReadStep(s, file, keepAlive, r), before, file, n, stale)
  {
    hide From;
    if r == Bytes(0) {
      assert s.cache >= |file|;
      FromBeyond(file, stale + n, s.cache);
    } else if r.Bytes? {
      FromExtends(file, stale + n, s.cache, s.cache + r.n);
      assert before + file[..n] + From(file, stale + n, s.cache) + file[s.cache..s.cache + r.n]
          == before + file[..n] + From(file, stale + n, s.cache + r.n);
    }
  }

  lemma MappingStreams(s: Session, before: string, file: string, n: nat, stale: nat)
    requires Streaming(s, before, file, n, stale) && !Stopped(s) && s.callback == SendMmapNext
    ensures Streaming(MappingStep(s, file), before, file, n, stale)
  {
    hide From, Left;
    LeftIs(s);
    if s.cache <= |file| {
      var m := if Left(s) > BUFFER then BUFFER else Left(s);
      FromExtends(file, stale + n, s.cache, s.cache + m);
      assert before + file[..n] + From(file, stale + n, s.cache) + file[s.cache..s.cache + m]
          == before + file[..n] + From(file, stale + n, s.cache + m);
    }
  }

  lemma LeftIs(s: Session)
    requires s.cache <= MAX_OFFSET && s.cur <= MAX_OFFSET
    ensures Left(s) == if s.cache <= s.cur then s.cur - s.cache else TWO64 - (s.cache - s.cur)
  {
  }

  lemma StepStreams(s: Session, before: string, file: string, n: nat, stale: nat, keepAlive: bool, r: Read)
    requires Streaming(s, before, file, n, stale) && !Stopped(s) && Allowed(s, file, r)
    ensures Streaming(WriteComplete(s, file, keepAlive, r), before, file, n, stale)
  {
    hide From, ReadStep, MappingStep;
    match s.callback
    case SendFileNext => ReadStreams(s, before, file, n, stale, keepAlive, r);
    case SendMmapNext => MappingStreams(s, before, file, n, stale);
    case NoCallback =>
    case LastWrite =>
  }

  lemma {:induction false} RunStreams(s: Session, before: string, file: string, n: nat, stale: nat, keepAlive: bool, rs: seq<Read>)
    requires Streaming(s, before, file, n, stale) && IsRun(s, file, keepAlive, rs)
    ensures Streaming(After(s, file, keepAlive, rs), before, file, n, stale)
    decreases |rs|
  {
    hide Streaming, WriteComplete, Allowed, Stopped;
    if rs != [] {
      StepStreams(s, before, file, n, stale, keepAlive, rs[0]);
      RunStreams(WriteComplete(s, file, keepAlive, rs[0]), before, file, n, stale, keepAlive, rs[1..]);
    }
  }

  /** Where a response starts: any session between responses, pread or mapping, any first count
      the kernel may return. */
  ghost predicate Started(s: Session, t: Session, head: string, file: string, n: nat, mmap: bool)
  {
    && !s.failed && !s.fault && |head| <= BUFFER && s.cache + |file| <= MAX_OFFSET
    && (if mmap then n == Min(BUFFER - |head|, |file|) && t == ServeMapped(s, head, file)
        else ReadOk(Bytes(n), file, BUFFER - |head|, 0) && t == ServeWithRead(s, head, file, Bytes(n)))
  }

  /** In every run of callbacks, under any short reads, a completed response has sent exactly the
      head and then the file, each byte once and in order, if and only if the session's offset
      was 0 to begin with or the first part already held the whole file. */
  lemma SendsExactly(s: Session, t: Session, head: string, file: string, n: nat, mmap: bool, keepAlive: bool, rs: seq<Read>)
    requires Started(s, t, head, file, n, mmap) && IsRun(t, file, keepAlive, rs)
    requires Completed(After(t, file, keepAlive, rs))
    ensures After(t, file, keepAlive, rs).sent == s.sent + head + file <==> s.cache == 0 || n == |file|
    ensures s.cache != 0 && n < |file| ==> |After(t, file, keepAlive, rs).sent| < |s.sent + head + file|
    ensures s.sent + head <= After(t, file, keepAlive, rs).sent
  {
    hide IsRun, After, From;
    var before := s.sent + head;
    BeginStreams(s, head, file, n, mmap);
    RunStreams(t, before, file, n, s.cache, keepAlive, rs);
    var e := After(t, file, keepAlive, rs);
    if n < |file| {
      assert e.sent == before + file[..n] + From(file, s.cache + n, |file|);
      Tail(before, file, n, s.cache);
    }
  }

  /** The part sent first and what is sent from the offset on. */
  lemma Tail(before: string, file: string, n: nat, stale: nat)
    requires n < |file|
    ensures var all := before + file[..n] + From(file, stale + n, |file|);
            && before <= all
            && (stale == 0 ==> all == before + file)
            && (stale != 0 ==> |all| < |before + file|)
  {
    if stale == 0 {
      assert file == file[..n] + file[n..];
      assert before + file[..n] + file[n..] == before + file;
    }
  }

  /** The callback that closes is installed only when every byte has been handed over. */
  lemma LastWriteMeansAllSent(s: Session, t: Session, head: string, file: string, n: nat, mmap: bool, keepAlive: bool, rs: seq<Read>)
    requires Started(s, t, head, file, n, mmap) && s.cache == 0 && IsRun(t, file, keepAlive, rs)
    ensures var e := After(t, file, keepAlive, rs);
            e.callback == LastWrite && !e.failed && !e.fault ==> e.sent == s.sent + head + file
  {
    hide IsRun, After, From;
    BeginStreams(s, head, file, n, mmap);
    RunStreams(t, s.sent + head, file, n, 0, keepAlive, rs);
    if n < |file| {
      Tail(s.sent + head, file, n, 0);
    }
  }

  /** Bytes not yet handed over, and one step more for the closing callback. */
  function Unsent(s: Session): nat
  {
    if Stopped(s) then 0 else if s.callback == LastWrite then 1
    else if s.cache <= s.cur then 2 + s.cur - s.cache else 2
  }

  /** Every callback of a response from offset 0 brings the end nearer, and never faults; so a run
      that is not over after so many callbacks does not exist. */
  lemma StepProgress(s: Session, before: string, file: string, n: nat, keepAlive: bool, r: Read)
    requires Streaming(s, before, file, n, 0) && !Stopped(s) && Allowed(s, file, r)
    ensures Unsent(WriteComplete(s, file, keepAlive, r)) < Unsent(s)
    ensures !WriteComplete(s, file, keepAlive, r).fault
  {
    if s.callback == SendMmapNext {
      assert s.cache <= |file| && Left(s) == |file| - s.cache;
    }
  }

  lemma {:induction false} RunProgress(s: Session, before: string, file: string, n: nat, keepAlive: bool, rs: seq<Read>)
    requires Streaming(s, before, file, n, 0) && !s.fault && IsRun(s, file, keepAlive, rs)
    ensures |rs| + Unsent(After(s, file, keepAlive, rs)) <= Unsent(s) && !After(s, file, keepAlive, rs).fault
    decreases |rs|
  {
    hide Streaming, WriteComplete, Allowed, Stopped, Unsent;
    if rs != [] {
      StepProgress(s, before, file, n, keepAlive, rs[0]);
      StepStreams(s, before, file, n, 0, keepAlive, rs[0]);
      RunProgress(WriteComplete(s, file, keepAlive, rs[0]), before, file, n, keepAlive, rs[1..]);
    }
  }

  /** From offset 0 no run is longer than the file (plus two steps), none faults, and one that
      cannot go on has completed or met a read error. */
  lemma AlwaysFinishes(s: Session, t: Session, head: string, file: string, n: nat, mmap: bool, keepAlive: bool, rs: seq<Read>)
    requires Started(s, t, head, file, n, mmap) && s.cache == 0 && IsRun(t, file, keepAlive, rs)
    ensures |rs| <= |file| + 2
    ensures !After(t, file, keepAlive, rs).fault
    ensures Stopped(After(t, file, keepAlive, rs)) && !After(t, file, keepAlive, rs).failed ==>
              After(t, file, keepAlive, rs).sent == s.sent + head + file
  {
    hide IsRun, After;
    BeginStreams(s, head, file, n, mmap);
    RunProgress(t, s.sent + head, file, n, keepAlive, rs);
    if Completed(After(t, file, keepAlive, rs)) {
      SendsExactly(s, t, head, file, n, mmap, keepAlive, rs);
    }
  }

  /** Nothing gets stuck: from any point of a response from offset 0, if the kernel goes on
      delivering, the response completes. */
  lemma {:induction false} Finishing(s: Session, before: string, file: string, n: nat, keepAlive: bool) returns (rs: seq<Read>)
    requires Streaming(s, before, file, n, 0) && !s.failed && !s.fault
    ensures IsRun(s, file, keepAlive, rs) && Completed(After(s, file, keepAlive, rs))
    decreases Unsent(s)
  {
    hide Streaming, WriteComplete, ReadOk;
    if s.ending != StillOpen {
      return [];
    }
    var r := NextRead(s, before, file, n);
    var t := WriteComplete(s, file, keepAlive, r);
    StepProgress(s, before, file, n, keepAlive, r);
    StepStreams(s, before, file, n, 0, keepAlive, r);
    ReadsGoOn(s, file, keepAlive, r);
    var more := Finishing(t, before, file, n, keepAlive);
    rs := [r] + more;
    assert rs[1..] == more;
  }

  lemma NextRead(s: Session, before: string, file: string, n: nat) returns (r: Read)
    requires Streaming(s, before, file, n, 0) && !Stopped(s)
    ensures Allowed(s, file, r) && r.Bytes?
  {
    r := Bytes(if s.cache < |file| then 1 else 0);
  }

  lemma ReadsGoOn(s: Session, file: string, keepAlive: bool, r: Read)
    requires Allowed(s, file, r) && r.Bytes? && !s.failed
    ensures !WriteComplete(s, file, keepAlive, r).failed
  {
  }

  lemma CompletionReachable(s: Session, t: Session, head: string, file: string, n: nat, mmap: bool, keepAlive: bool)
    requires Started(s, t, head, file, n, mmap) && s.cache == 0
    ensures exists rs :: IsRun(t, file, keepAlive, rs) && Completed(After(t, file, keepAlive, rs))
  {
    hide IsRun, After;
    BeginStreams(s, head, file, n, mmap);
    var rs := Finishing(t, s.sent + head, file, n, keepAlive);
  }

  /** The offset is never reset: a response that needed more than one part leaves it above 0, so
      on the same connection the next response that needs more than one part is cut short. */
  lemma SecondResponseIsShort(
      s: Session, t: Session, head: string, file: string, n: nat, mmap: bool, keepAlive: bool, rs: seq<Read>,
      t2: Session, head2: string, file2: string, n2: nat, mmap2: bool, keepAlive2: bool, rs2: seq<Read>)
    requires Started(s, t, head, file, n, mmap) && n < |file| && (mmap ==> |head| < BUFFER)
    requires IsRun(t, file, keepAlive, rs) && Completed(After(t, file, keepAlive, rs))
    requires s.cache == 0
    requires Started(After(t, file, keepAlive, rs), t2, head2, file2, n2, mmap2) && n2 < |file2|
    requires IsRun(t2, file2, keepAlive2, rs2) && Completed(After(t2, file2, keepAlive2, rs2))
    ensures |After(t2, file2, keepAlive2, rs2).sent| < |After(t, file, keepAlive, rs).sent + head2 + file2|
  {
    hide IsRun, After;
    var e := After(t, file, keepAlive, rs);
    OffsetStays(s, t, head, file, n, mmap, keepAlive, rs);
    SendsExactly(e, t2, head2, file2, n2, mmap2, keepAlive2, rs2);
  }

  lemma OffsetStays(s: Session, t: Session, head: string, file: string, n: nat, mmap: bool, keepAlive: bool, rs: seq<Read>)
    requires Started(s, t, head, file, n, mmap) && n < |file| && s.cache == 0 && (mmap ==> |head| < BUFFER)
    requires IsRun(t, file, keepAlive, rs) && Completed(After(t, file, keepAlive, rs))
    ensures After(t, file, keepAlive, rs).cache > 0
  {
    hide IsRun, After;
    BeginStreams(s, head, file, n, mmap);
    RunOffset(t, file, keepAlive, rs);
    if n == 0 {
      RunOffsetFull(t, s.sent + head, file, n, keepAlive, rs);
    }
  }

  function Total(ns: seq<nat>): nat
  {
    if ns == [] then 0 else ns[0] + Total(ns[1..])
  }

  function Reads(ns: seq<nat>): seq<Read>
  {
    if ns == [] then [] else [Bytes(ns[0])] + Reads(ns[1..])
  }

  /** The kernel may cut what is left of a file in any way: every division into parts of 1 to 65536
      bytes is a run, which sends just those bytes and ends with the closing callback installed. At
      any time the next read may fail instead. */
  lemma {:induction false} EveryCutRuns(s: Session, file: string, keepAlive: bool, ns: seq<nat>)
    requires s.callback == SendFileNext && !Stopped(s) && s.cur == |file| && ns != []
    requires s.cache + Total(ns) == |file| && forall n :: n in ns ==> 0 < n <= 65536
    ensures IsRun(s, file, keepAlive, Reads(ns))
    ensures var e := After(s, file, keepAlive, Reads(ns));
            e.callback == LastWrite && e.ending == StillOpen && e.sent == s.sent + file[s.cache..]
    ensures IsRun(s, file, keepAlive, [ReadError]) && After(s, file, keepAlive, [ReadError]).failed
    decreases |ns|
  {
    hide WriteComplete, Allowed;
    var n := ns[0];
    assert n in ns && ns == [n] + ns[1..];
    OneCut(s, file, keepAlive, n);
    var t := WriteComplete(s, file, keepAlive, Bytes(n));
    assert Reads(ns)[0] == Bytes(n) && Reads(ns)[1..] == Reads(ns[1..]);
    assert file[s.cache..s.cache + n] + file[s.cache + n..] == file[s.cache..];
    FailsNow(s, file, keepAlive);
    if ns[1..] == [] {
      assert Total(ns[1..]) == 0 && Reads(ns[1..]) == [];
      assert file[s.cache + n..] == "";
    } else {
      assert ns[1] in ns && ns[1..][0] == ns[1] && forall m :: m in ns[1..] ==> m in ns;
      assert Total(ns[1..]) == ns[1] + Total(ns[1..][1..]);
      EveryCutRuns(t, file, keepAlive, ns[1..]);
    }
  }

  lemma OneCut(s: Session, file: string, keepAlive: bool, n: nat)
    requires s.callback == SendFileNext && !Stopped(s) && s.cur == |file| && 0 < n <= 65536 && s.cache + n <= |file|
    ensures Allowed(s, file, Bytes(n))
    ensures var t := WriteComplete(s, file, keepAlive, Bytes(n));
            && t == s.(cache := s.cache + n, sent := s.sent + file[s.cache..s.cache + n],
                       callback := if s.cache + n == |file| then LastWrite else SendFileNext)
            && !Stopped(t)
  {
    hide MappingStep, Left, Failed, Closed, ReadErrorPage;
  }

  lemma FailsNow(s: Session, file: string, keepAlive: bool)
    requires s.callback == SendFileNext && !Stopped(s)
    ensures IsRun(s, file, keepAlive, [ReadError]) && After(s, file, keepAlive, [ReadError]).failed
  {
    hide MappingStep, Left, Closed, ReadErrorPage;
    assert Allowed(s, file, ReadError) && [ReadError][1..] == [];
  }

  /** A response of one part leaves the offset as it was. */
  lemma OneShotKeepsOffset(s: Session, t: Session, head: string, file: string, mmap: bool, keepAlive: bool, rs: seq<Read>)
    requires Started(s, t, head, file, |file|, mmap) && IsRun(t, file, keepAlive, rs)
    ensures After(t, file, keepAlive, rs).cache == s.cache && |rs| <= 1
  {
    assert t.callback == LastWrite && t.cache == s.cache;
    LastStep(t, file, keepAlive, rs);
  }

  lemma LastStep(s: Session, file: string, keepAlive: bool, rs: seq<Read>)
    requires s.callback == LastWrite && IsRun(s, file, keepAlive, rs)
    ensures After(s, file, keepAlive, rs).cache == s.cache && |rs| <= 1
  {
    if rs != [] {
      assert Stopped(WriteComplete(s, file, keepAlive, rs[0]));
    }
  }

  /** The first part of a mapped file, head and bytes together at most 65536. */
  lemma MappedStart(s: Session, head: string, file: string)
    requires |head| <= 65536
    ensures ServeMapped(s, head, file).sent ==
            s.sent + head + if |head| + |file| <= 65536 then file else file[..65536 - |head|]
  {
    assert file[..|file|] == file;
  }

  /** Every later part: 65536 bytes, or the rest. */
  lemma MappedPart(s: Session, file: string, keepAlive: bool, r: Read)
    requires s.callback == SendMmapNext && s.cache <= s.cur == |file| <= MAX_OFFSET
    ensures WriteComplete(s, file, keepAlive, r).sent ==
            s.sent + if s.cache + 65536 < |file| then file[s.cache..s.cache + 65536] else file[s.cache..]
  {
    LeftIs(s);
    hide Left;
    assert file[s.cache..|file|] == file[s.cache..];
  }

  lemma {:induction false} RunOffset(s: Session, file: string, keepAlive: bool, rs: seq<Read>)
    requires IsRun(s, file, keepAlive, rs)
    ensures After(s, file, keepAlive, rs).cache >= s.cache
    decreases |rs|
  {
    hide WriteComplete, Allowed;
    if rs != [] {
      StepOffset(s, file, keepAlive, rs[0]);
      RunOffset(WriteComplete(s, file, keepAlive, rs[0]), file, keepAlive, rs[1..]);
    }
  }

  lemma StepOffset(s: Session, file: string, keepAlive: bool, r: Read)
    requires Allowed(s, file, r)
    ensures WriteComplete(s, file, keepAlive, r).cache >= s.cache
  {
    hide MappingStep, ReadErrorPage;
    MappingOffset(s, file);
  }

  lemma MappingOffset(s: Session, file: string)
    ensures MappingStep(s, file).cache >= s.cache
  {
    hide Left;
  }

  /** With pread the offset ends at the size of the file. */
  lemma {:induction false} RunOffsetFull(s: Session, before: string, file: string, n: nat, keepAlive: bool, rs: seq<Read>)
    requires Streaming(s, before, file, n, 0) && n < |file| && IsRun(s, file, keepAlive, rs)
    requires s.callback == SendFileNext || (s.callback in {LastWrite, NoCallback} && s.cache == |file|)
    requires Completed(After(s, file, keepAlive, rs))
    ensures After(s, file, keepAlive, rs).cache == |file|
    decreases |rs|
  {
    if rs != [] {
      StepStreams(s, before, file, n, 0, keepAlive, rs[0]);
      RunOffsetFull(WriteComplete(s, file, keepAlive, rs[0]), before, file, n, keepAlive, rs[1..]);
    }
  }

  // ------------------------------------------------------ how a response ends

  lemma {:induction false} RunEnds(s: Session, file: string, keepAlive: bool, rs: seq<Read>)
    requires IsRun(s, file, keepAlive, rs) && s.ending == StillOpen && !s.failed
    ensures var e := After(s, file, keepAlive, rs);
            && (e.failed ==> e.ending == WriteShutdown)
            && (!e.failed && e.ending != StillOpen ==> if keepAlive then e.ending == KeepAliveTimer else e.ending == WriteShutdown)
    decreases |rs|
  {
    hide WriteComplete, Allowed;
    if rs != [] {
      StepEnds(s, file, keepAlive, rs[0]);
      var t := WriteComplete(s, file, keepAlive, rs[0]);
      if t.ending == StillOpen && !t.failed {
        RunEnds(t, file, keepAlive, rs[1..]);
      }
    }
  }

  lemma StepEnds(s: Session, file: string, keepAlive: bool, r: Read)
    requires Allowed(s, file, r) && s.ending == StillOpen && !s.failed
    ensures var t := WriteComplete(s, file, keepAlive, r);
            && (t.failed <==> s.callback == SendFileNext && r == ReadError)
            && (t.failed ==> t.ending == WriteShutdown && t.sent == s.sent + ReadErrorPage() && t.cache == s.cache)
            && (!t.failed && t.ending != StillOpen ==> if keepAlive then t.ending == KeepAliveTimer else t.ending == WriteShutdown)
  {
    hide ReadErrorPage, Left;
  }

  /** A completed response leaves the connection on the keep-alive timer if the request asked for
      that, and otherwise shuts it down, whatever the reads. */
  lemma EndsAsAsked(s: Session, t: Session, head: string, file: string, n: nat, mmap: bool, keepAlive: bool, rs: seq<Read>)
    requires Started(s, t, head, file, n, mmap) && IsRun(t, file, keepAlive, rs)
    requires Completed(After(t, file, keepAlive, rs))
    ensures After(t, file, keepAlive, rs).ending == KeepAliveTimer <==> keepAlive
    ensures After(t, file, keepAlive, rs).ending == WriteShutdown <==> !keepAlive
  {
    hide IsRun, After;
    RunEnds(t, file, keepAlive, rs);
  }

  /** Where a run that met a read error stood before it. */
  lemma {:induction false} BeforeFailure(s: Session, before: string, file: string, n: nat, stale: nat, keepAlive: bool, rs: seq<Read>)
    requires Streaming(s, before, file, n, stale) && IsRun(s, file, keepAlive, rs) && !Stopped(s)
    requires After(s, file, keepAlive, rs).failed
    ensures var e := After(s, file, keepAlive, rs);
            && e.ending == WriteShutdown && stale + n <= e.cache && n < |file|
            && e.sent == before + file[..n] + From(file, stale + n, e.cache) + ReadErrorPage()
    decreases |rs|
  {
    hide WriteComplete, Allowed, From, ReadErrorPage;
    StepEnds(s, file, keepAlive, rs[0]);
    var t := WriteComplete(s, file, keepAlive, rs[0]);
    StepStreams(s, before, file, n, stale, keepAlive, rs[0]);
    if t.failed {
      assert rs[1..] == [];
    } else {
      BeforeFailure(t, before, file, n, stale, keepAlive, rs[1..]);
    }
  }

  /** A read error on the way: the error page goes out behind whatever has been sent of the file, and
      the connection is shut down. */
  lemma FailureSendsPage(s: Session, t: Session, head: string, file: string, n: nat, mmap: bool, keepAlive: bool, rs: seq<Read>)
    requires Started(s, t, head, file, n, mmap) && IsRun(t, file, keepAlive, rs)
    requires After(t, file, keepAlive, rs).failed
    ensures var e := After(t, file, keepAlive, rs);
            && e.ending == WriteShutdown && n < |file| && s.cache + n <= e.cache
            && e.sent == s.sent + head + file[..n] + From(file, s.cache + n, e.cache)
                         + HttpResponse.ClientError(500, "Internal ServerError", "pread() error")
  {
    hide IsRun, After, From, HttpResponse.ClientError;
    BeginStreams(s, head, file, n, mmap);
    BeforeFailure(t, s.sent + head, file, n, s.cache, keepAlive, rs);
  }

  // ------------------------------------------------------------ the session

  /** HttpSession's part in serving a file. Reads come in as parameters; what Send was given, the
      registered callback and the end of the connection are fields. */
  class HttpSession {
    var curFilesize: nat
    var cacheFilesize: nat
    var callback: Callback
    var sent: string
    var ending: Ending
    var failed: bool
    var fault: bool

    constructor ()
      ensures View() == FRESH_SESSION && cacheFilesize == 0 && sent == "" && !failed && !fault
    {
      curFilesize, cacheFilesize, callback, sent := 0, 0, NoCallback, "";
      ending, failed, fault := StillOpen, false, false;
    }

    function View(): Session
      reads this
    {
      Session(curFilesize, cacheFilesize, callback, sent, ending, failed, fault)
    }

    method CloseConnection(keepAlive: bool)
      modifies this`ending
      ensures View() == Closed(old(View()), keepAlive)
    {
      if keepAlive {
        ending := KeepAliveTimer;
      } else {
        ending := WriteShutdown;
      }
    }

    method SetLastWriteComplete()
      modifies this`callback
      ensures View() == old(View()).(callback := LastWrite)
    {
      callback := LastWrite;
    }

    method SendErrorResponse(page: string)
      modifies this`failed, this`sent, this`ending
      ensures View() == Failed(old(View()), page)
      ensures failed && sent == old(sent) + page && ending == WriteShutdown
    {
      sent := sent + page;
      failed := true;
      ending := WriteShutdown;
    }

    /** One whole response's start, the last message's timer cancelled; `access` is what stat and
        the cache say, `firstRead` what the first pread gives when no mapping is used. */
    method ServeFile(head: string, file: string, access: Access, useMmap: bool, firstRead: Read)
      requires |head| <= BUFFER
      requires !useMmap ==> ReadOk(firstRead, file, BUFFER - |head|, 0)
      modifies this
      ensures View() == match access
                        case Refused(page) => Failed(old(View()), page)
                        case NotOpened(page) => Failed(old(View()).(cur := |file|), page)
                        case Granted =>
                          if useMmap then ServeMapped(old(View()), head, file) else ServeWithRead(old(View()), head, file, firstRead)
      ensures !access.Granted? ==> failed && sent == old(sent) + access.page && ending == WriteShutdown
      ensures access.Granted? && !useMmap && firstRead == ReadError ==> fault && sent == old(sent)
    {
      if access.Refused? {
        SendErrorResponse(access.page);
        return;
      }
      curFilesize := |file|;
      if access.NotOpened? {
        SendErrorResponse(access.page);
        return;
      }
      var readn: int;
      if !useMmap {
        match firstRead {
          case ReadError =>
            fault := true;
            return;
          case Bytes(n) =>
            readn := n;
        }
      } else {
        readn := BUFFER - |head|;
        if readn >= |file| {
          readn := |file|;
        }
      }
      ending := StillOpen;
      if readn < |file| {
        cacheFilesize := cacheFilesize + readn;
        if !useMmap {
          callback := SendFileNext;
        } else {
          callback := SendMmapNext;
        }
        sent := sent + head + file[..readn];
      } else {
        SetLastWriteComplete();
        sent := sent + head + file[..readn];
      }
    }

    method SendFile(file: string, keepAlive: bool, r: Read)
      requires ReadOk(r, file, BUFFER, cacheFilesize)
      modifies this
      ensures View() == ReadStep(old(View()), file, keepAlive, r)
    {
      match r {
        case ReadError =>
          SendErrorResponse(ReadErrorPage());
        case Bytes(readn) =>
          if readn > 0 {
            var offset := cacheFilesize;
            cacheFilesize := cacheFilesize + readn;
            if curFilesize == cacheFilesize {
              SetLastWriteComplete();
            }
            sent := sent + file[offset..offset + readn];
          } else {
            callback := NoCallback;
            CloseConnection(keepAlive);
          }
      }
    }

    method SendFileOfMmap(file: string)
      modifies this
      ensures View() == MappingStep(old(View()), file)
    {
      var left := (curFilesize + TWO64 - cacheFilesize % TWO64) % TWO64;
      var piece := if left > BUFFER then BUFFER else left;
      if cacheFilesize + piece > |file| {
        fault := true;
        return;
      }
      if left > BUFFER {
        sent := sent + file[cacheFilesize..cacheFilesize + BUFFER];
        cacheFilesize := cacheFilesize + BUFFER;
      } else {
        SetLastWriteComplete();
        sent := sent + file[cacheFilesize..cacheFilesize + left];
      }
    }

    method OnWriteComplete(file: string, keepAlive: bool, r: Read)
      requires Allowed(View(), file, r)
      modifies this
      ensures View() == WriteComplete(old(View()), file, keepAlive, r)
      ensures old(callback) == NoCallback ==> View() == old(View())
    {
      match callback {
        case NoCallback =>
        case SendFileNext => SendFile(file, keepAlive, r);
        case SendMmapNext => SendFileOfMmap(file);
        case LastWrite => CloseConnection(keepAlive);
      }
    }
  }
}
