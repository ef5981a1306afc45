/** What a client makes of whole responses: computed length, chunks, and served files. */
module ResponseFraming {
  import opened Text
  import opened HttpMessage
  import opened ChunkCoding
  import opened HttpResponse
  import FileStream

  // ------------------------------------------------------------ the builder

  function StatusLine(version: Version, code: nat, phrase: string): string
    requires version != NoVersion
  {
    VersionText(version) + " " + Dec(code) + " " + phrase
  }

  predicate GoodStatus(version: Version, code: nat, phrase: string)
  {
    version != NoVersion && |Dec(code)| + |phrase| + 4 < 255 && OneLine(StatusLine(version, code, phrase))
  }

  /** A response after AddHeaderLine. */
  function Start(version: Version, code: nat, phrase: string, known: bool): Response
    requires version != NoVersion
  {
    Response(StatusText(version, code, phrase), "", known, false)
  }

  lemma StartIs(version: Version, code: nat, phrase: string, known: bool)
    requires GoodStatus(version, code, phrase)
    ensures Start(version, code, phrase, known).buffer == StatusLine(version, code, phrase) + CRLF
  {
    var t := " " + Dec(code) + " " + phrase;
    assert VersionText(version) + (t + CRLF) == VersionText(version) + t + CRLF;
    assert StatusLine(version, code, phrase) == VersionText(version) + t;
  }

  /** The fields asked for, in call order. */
  function FieldsOf(calls: seq<Call>): seq<Field>
    decreases |calls|
  {
    if calls == [] then [] else
    (match calls[0]
     case Header(field, content) => [(field, content)]
     case ChunkedTransferHeader => [("Transfer-Encoding", "chunked")]
     case _ => []) + FieldsOf(calls[1..])
  }

  /** The body pieces, in call order. */
  function BodyOf(calls: seq<Call>): string
    decreases |calls|
  {
    if calls == [] then "" else (if calls[0].Piece? then calls[0].data else "") + BodyOf(calls[1..])
  }

  predicate CleanCall(c: Call)
  {
    c.Header? ==> Clean((c.field, c.content))
  }

  /** No blank, no control byte, no colon. */
  predicate Token(s: string)
  {
    forall i :: 0 <= i < |s| ==> s[i] > ' ' && s[i] != ':'
  }

  lemma TokensClean(f: Field)
    requires Token(f.0) && Token(f.1) && |f.0| + |f.1| + 4 <= 255
    ensures Clean(f) && HeaderText(f.0, f.1) == FieldLine(f) + CRLF
  {
    assert '\r' !in FieldLine(f);
    NoCrOneLine(FieldLine(f));
    CleanIsIntact(f);
  }

  lemma ChunkedFieldClean()
    ensures Clean(("Transfer-Encoding", "chunked"))
    ensures HeaderText("Transfer-Encoding", "chunked") == FieldLine(("Transfer-Encoding", "chunked")) + CRLF
  {
    hide HeaderText, Clean, FieldLine;
    TokensClean(("Transfer-Encoding", "chunked"));
  }

  lemma AllCleanCons(f: Field, more: seq<Field>)
    requires Clean(f) && forall k :: 0 <= k < |more| ==> Clean(more[k])
    ensures forall k :: 0 <= k < |[f] + more| ==> Clean(([f] + more)[k])
  {
    hide Clean;
  }

  lemma {:induction false} FieldsClean(calls: seq<Call>)
    requires forall k :: 0 <= k < |calls| ==> CleanCall(calls[k])
    ensures forall k :: 0 <= k < |FieldsOf(calls)| ==> Clean(FieldsOf(calls)[k])
    decreases |calls|
  {
    hide Clean;
    if calls != [] {
      var c := calls[0];
      assert CleanCall(c);
      FieldsClean(calls[1..]);
      ChunkedFieldClean();
      var more := FieldsOf(calls[1..]);
      if c.Header? {
        AllCleanCons((c.field, c.content), more);
      } else if c.ChunkedTransferHeader? {
        AllCleanCons(("Transfer-Encoding", "chunked"), more);
      } else {
        assert FieldsOf(calls) == more;
      }
    }
  }

  lemma CleanIsIntact(f: Field)
    requires Clean(f)
    ensures HeaderText(f.0, f.1) == FieldLine(f) + CRLF
  {
    HeaderIntact(f.0, f.1);
  }

  lemma FieldLinesCons(f: Field, more: seq<Field>)
    ensures FieldLines([f] + more) == FieldLine(f) + CRLF + FieldLines(more)
  {
  }

  /** What AddHeader and AddChunkedTransferHeader add. */
  lemma HeadStep(r: Response, c: Call, more: seq<Field>)
    requires CleanCall(c) && (c.Header? || c.ChunkedTransferHeader?)
    ensures var f := if c.Header? then (c.field, c.content) else ("Transfer-Encoding", "chunked");
            Do(r, c).buffer + FieldLines(more) == r.buffer + FieldLines([f] + more)
  {
    hide Clean, HeaderText, FieldLine, FieldLines;
    var f := if c.Header? then (c.field, c.content) else ("Transfer-Encoding", "chunked");
    ChunkedFieldClean();
    CleanIsIntact(f);
    FieldLinesCons(f, more);
    assert r.buffer + (FieldLine(f) + CRLF) + FieldLines(more) == r.buffer + (FieldLine(f) + CRLF + FieldLines(more));
  }

  predicate Unchunked(calls: seq<Call>)
  {
    forall k :: 0 <= k < |calls| ==> CleanCall(calls[k]) && !calls[k].Chunk? && !calls[k].ChunkedTransferHeader?
  }

  /** While the length is to be computed, headers and body pieces can come in any order: each goes
      to its own place, and blank lines do nothing. */
  lemma {:induction false} PiecesAndHeaders(r: Response, calls: seq<Call>)
    requires !r.knownLength && Unchunked(calls)
    ensures DoAll(r, calls) == r.(buffer := r.buffer + FieldLines(FieldsOf(calls)), body := r.body + BodyOf(calls))
    decreases |calls|
  {
    hide CleanCall, HeaderText, FieldLines;
    if calls == [] {
      NoFieldLines();
      assert r.buffer + "" == r.buffer && r.body + "" == r.body;
    } else {
      var c, more, rest := calls[0], FieldsOf(calls[1..]), BodyOf(calls[1..]);
      assert CleanCall(c);
      PiecesAndHeaders(Do(r, c), calls[1..]);
      if c.Header? {
        HeadStep(r, c, more);
        assert "" + rest == rest;
      } else {
        assert [] + more == more;
        assert c.Piece? ==> r.body + c.data + rest == r.body + (c.data + rest);
        assert c.BlackLine? ==> "" + rest == rest;
      }
    }
  }

  lemma NoFieldLines()
    ensures FieldLines([]) == ""
  {
  }

  /** The head of a response in either mode, with or without chunks announced. */
  lemma {:induction false} HeadersOnly(r: Response, calls: seq<Call>)
    requires forall k :: 0 <= k < |calls| ==> CleanCall(calls[k]) && (calls[k].Header? || calls[k].ChunkedTransferHeader?)
    ensures DoAll(r, calls).buffer == r.buffer + FieldLines(FieldsOf(calls)) && DoAll(r, calls).body == r.body
    ensures DoAll(r, calls).knownLength == (r.knownLength || ChunkedTransferHeader in calls)
    ensures DoAll(r, calls).chunked == (r.chunked || ChunkedTransferHeader in calls)
    decreases |calls|
  {
    hide CleanCall, HeaderText, FieldLines;
    if calls == [] {
      NoFieldLines();
      assert r.buffer + "" == r.buffer;
    } else {
      HeadersOnly(Do(r, calls[0]), calls[1..]);
      HeadStep(r, calls[0], FieldsOf(calls[1..]));
    }
  }

  lemma DoOneMore(r: Response, calls: seq<Call>, c: Call)
    ensures DoAll(r, calls + [c]) == Do(DoAll(r, calls), c)
  {
    DoAllAppend(r, calls, [c]);
    assert DoAll(DoAll(r, calls), [c]) == DoAll(Do(DoAll(r, calls), c), []);
  }

  lemma {:induction false} DoAllAppend(r: Response, a: seq<Call>, b: seq<Call>)
    ensures DoAll(r, a + b) == DoAll(DoAll(r, a), b)
    decreases |a|
  {
    if a == [] {
      assert a + b == b;
    } else {
      assert (a + b)[0] == a[0] && (a + b)[1..] == a[1..] + b;
      DoAllAppend(Do(r, a[0]), a[1..], b);
    }
  }

  // ---------------------------------------------------------- computed length

  /** The fields a client sees: the caller's, then the computed length if there is a body. */
  function WithLength(fields: seq<Field>, body: string): seq<Field>
  {
    if body == "" then fields else fields + [("Content-Length", Dec(|body|))]
  }

  lemma LengthFieldClean(n: nat)
    requires n <= ULLONG_MAX
    ensures Clean(("Content-Length", Dec(n)))
    ensures HeaderText("Content-Length", Dec(n)) == FieldLine(("Content-Length", Dec(n))) + CRLF
  {
    hide HeaderText, Clean, FieldLine, Dec;
    DecFits(n);
    assert forall i :: 0 <= i < |Dec(n)| ==> IsDigit(Dec(n)[i]);
    TokensClean(("Content-Length", Dec(n)));
  }

  lemma EmittedIs(version: Version, code: nat, phrase: string, calls: seq<Call>)
    requires GoodStatus(version, code, phrase) && |BodyOf(calls)| <= ULLONG_MAX
    requires Unchunked(calls)
    ensures Emitted(DoAll(Start(version, code, phrase, false), calls)).buffer
         == HeadBytes(StatusLine(version, code, phrase), WithLength(FieldsOf(calls), BodyOf(calls))) + BodyOf(calls)
  {
    hide HeaderText, StatusLine, StatusText, Clean, CleanCall, FieldLine, BodyOf, FieldsOf;
    var r, body, fields := Start(version, code, phrase, false), BodyOf(calls), FieldsOf(calls);
    StartIs(version, code, phrase, false);
    PiecesAndHeaders(r, calls);
    var e := DoAll(r, calls);
    assert e.body == "" + body == body;
    if body == "" {
      assert WithLength(fields, body) == fields;
    } else {
      var f := ("Content-Length", Dec(|body|));
      LengthFieldClean(|body|);
      FieldLinesAppend(fields, f);
      assert r.buffer + FieldLines(fields) + (FieldLine(f) + CRLF) == r.buffer + (FieldLines(fields) + FieldLine(f) + CRLF);
    }
  }

  lemma LengthReads(status: string, fields: seq<Field>, n: nat, b: string)
    requires Lookup(fields, "Transfer-Encoding").None? && Lookup(fields, "Content-Length") == Some(Dec(n))
    ensures FrameBody(status, fields, b) == if n <= |b| then Delimited(status, fields, b[..n], b[n..]) else Unfinished
  {
    DecValue(n);
    assert Dec(n) != "" && forall i :: 0 <= i < |Dec(n)| ==> IsDigit(Dec(n)[i]);
  }

  /** Headers and body pieces in any interleaving, one GetBuffer, any bytes behind: a client gets
      the status, the fields in call order, the computed length, and the body cut off exactly where
      it ends. Without a body nothing delimits the message, and it runs on until the close. */
  lemma ComputedLength(version: Version, code: nat, phrase: string, calls: seq<Call>, rest: string)
    requires GoodStatus(version, code, phrase) && |BodyOf(calls)| <= ULLONG_MAX && Unframed(FieldsOf(calls))
    requires Unchunked(calls)
    ensures var bytes := Emitted(DoAll(Start(version, code, phrase, false), calls)).buffer;
            var status := StatusLine(version, code, phrase);
            Receive(bytes + rest) ==
            if BodyOf(calls) != "" then Delimited(status, WithLength(FieldsOf(calls), BodyOf(calls)), BodyOf(calls), rest)
            else UntilClose(status, FieldsOf(calls), rest)
  {
    hide Receive, StatusLine, HeadBytes, Clean, CleanCall, DoAll, Dec, Emitted, Start, FrameBody, FieldsOf, BodyOf, Unframed, WithLength;
    var status, body := StatusLine(version, code, phrase), BodyOf(calls);
    var fields := WithLength(FieldsOf(calls), body);
    EmittedIs(version, code, phrase, calls);
    FieldsClean(calls);
    WithLengthClean(FieldsOf(calls), body);
    HeadReads(status, fields, body + rest);
    assert HeadBytes(status, fields) + body + rest == HeadBytes(status, fields) + (body + rest);
    ComputedBody(status, FieldsOf(calls), body, rest);
  }

  lemma ComputedBody(status: string, fields: seq<Field>, body: string, rest: string)
    requires Unframed(fields)
    ensures FrameBody(status, WithLength(fields, body), body + rest) ==
            if body != "" then Delimited(status, WithLength(fields, body), body, rest) else UntilClose(status, fields, rest)
  {
    hide SameName, Dec;
    if body == "" {
      assert body + rest == rest;
    } else {
      OtherName();
      var f := ("Content-Length", Dec(|body|));
      LookupAppend(fields, f, "Content-Length");
      LookupAppend(fields, f, "Transfer-Encoding");
      LengthReads(status, fields + [f], |body|, body + rest);
      assert (body + rest)[..|body|] == body && (body + rest)[|body|..] == rest;
    }
  }

  lemma WithLengthClean(fields: seq<Field>, body: string)
    requires |body| <= ULLONG_MAX && forall k :: 0 <= k < |fields| ==> Clean(fields[k])
    ensures forall k :: 0 <= k < |WithLength(fields, body)| ==> Clean(WithLength(fields, body)[k])
  {
    hide Clean, Dec;
    LengthFieldClean(|body|);
  }

  lemma ErrorFields(code: nat, phrase: string, msg: string)
    ensures FieldsOf(ErrorCalls(code, phrase, msg)) == [("Content-Type", "text/html"), ("Connection", "close")]
    ensures BodyOf(ErrorCalls(code, phrase, msg)) != ""
  {
    ErrorStarts(code, phrase, msg);
    hide ErrorCalls;
    var c := ErrorCalls(code, phrase, msg);
    NoFields(c[2..]);
    assert c[1..][1..] == c[2..];
    assert FieldsOf(c[1..]) == [("Connection", "close")] + [];
    SomeBody(c, 3);
  }

  lemma ErrorStarts(code: nat, phrase: string, msg: string)
    ensures var c := ErrorCalls(code, phrase, msg);
            && |c| > 3 && c[0] == Header("Content-Type", "text/html") && c[1] == Header("Connection", "close") && c[3] == Piece("<html>")
            && forall k :: 2 <= k < |c| ==> c[k].Piece? || c[k].BlackLine?
  {
    hide Dec, CString;
  }

  lemma {:induction false} SomeBody(calls: seq<Call>, k: nat)
    requires k < |calls| && calls[k].Piece? && calls[k].data != ""
    ensures BodyOf(calls) != ""
    decreases k
  {
    if k > 0 {
      SomeBody(calls[1..], k - 1);
    }
  }

  lemma {:induction false} NoFields(calls: seq<Call>)
    requires forall k :: 0 <= k < |calls| ==> calls[k].Piece? || calls[k].BlackLine?
    ensures FieldsOf(calls) == []
    decreases |calls|
  {
    if calls != [] {
      NoFields(calls[1..]);
    }
  }

  /** The page, with code and phrase as its heading and the message below. */
  function ErrorPage(code: nat, phrase: string, msg: string): string
  {
    "<html>" + ("<title>Kanon Error</title>" + ("<body bgcolor=\"#ffffff\">"
    + (("<h1 align=\"center\">" + Dec(code) + " " + phrase + "</h1>" + CRLF) + (("<p>" + msg + "</p>" + CRLF)
    + ("<div>" + ("<center><hr><em>This is a simple http server(Kanon)</em></center>"
    + ("</div>" + ("</body>" + ("</html>" + CRLF)))))))))
  }

  lemma BodyAt(calls: seq<Call>, k: nat)
    requires k < |calls|
    ensures BodyOf(calls[k..]) == if calls[k].Piece? then calls[k].data + BodyOf(calls[k + 1..]) else BodyOf(calls[k + 1..])
  {
    assert calls[k..][1..] == calls[k + 1..];
    assert calls[k..][0] == calls[k];
  }

  /** Ten pieces behind three calls that are none. */
  lemma TenPieces(c: seq<Call>)
    requires |c| == 13 && !c[0].Piece? && !c[1].Piece? && !c[2].Piece? && forall k :: 3 <= k < 13 ==> c[k].Piece?
    ensures BodyOf(c) == c[3].data + (c[4].data + (c[5].data + (c[6].data + (c[7].data + (c[8].data
                         + (c[9].data + (c[10].data + (c[11].data + c[12].data))))))))
  {
    assert c[0..] == c && c[13..] == [] && BodyOf([]) == "";
    hide BodyOf;
    BodyAt(c, 0);
    BodyAt(c, 1);
    BodyAt(c, 2);
    BodyAt(c, 3);
    BodyAt(c, 4);
    BodyAt(c, 5);
    BodyAt(c, 6);
    BodyAt(c, 7);
    BodyAt(c, 8);
    BodyAt(c, 9);
    BodyAt(c, 10);
    BodyAt(c, 11);
    BodyAt(c, 12);
    assert c[12].data + "" == c[12].data;
  }

  lemma ErrorText(code: nat, phrase: string, msg: string)
    ensures BodyOf(ErrorCalls(code, phrase, msg)) == ErrorPage(code, phrase, CString(msg))
  {
    hide BodyOf, Dec, CString;
    TenPieces(ErrorCalls(code, phrase, msg));
  }

  /** A client gets the error page whole, with exactly the bytes behind it left over, if the message
      fits the buffer it is formatted through. */
  lemma ErrorPageArrives(code: nat, phrase: string, msg: string, rest: string)
    requires GoodStatus(Http11, code, phrase) && MessageFits(msg)
    ensures var page := ErrorPage(code, phrase, CString(msg));
            Receive(ClientError(code, phrase, msg) + rest) ==
            Delimited("HTTP/1.1 " + Dec(code) + " " + phrase,
                      [("Content-Type", "text/html"), ("Connection", "close"), ("Content-Length", Dec(|page|))], page, rest)
  {
    hide Receive, Emitted, DoAll, BodyOf, FieldsOf, StatusText, WithLength, GoodStatus, Dec, CString, ErrorPage;
    var calls := ErrorCalls(code, phrase, msg);
    ErrorText(code, phrase, msg);
    ErrorLength(code, phrase, msg);
    assert "HTTP/1.1" + " " == "HTTP/1.1 ";
    ErrorFields(code, phrase, msg);
    ErrorSize(code, phrase, msg);
    ErrorUnframed();
    ErrorUnchunked(code, phrase, msg);
    ComputedLength(Http11, code, phrase, calls, rest);
  }

  lemma ErrorLength(code: nat, phrase: string, msg: string)
    ensures var b := BodyOf(ErrorCalls(code, phrase, msg));
            WithLength([("Content-Type", "text/html"), ("Connection", "close")], b)
            == [("Content-Type", "text/html"), ("Connection", "close"), ("Content-Length", Dec(|b|))]
  {
    hide BodyOf, Dec, ErrorCalls;
    ErrorFields(code, phrase, msg);
  }

  lemma {:induction false} BodyBound(calls: seq<Call>)
    requires forall k :: 0 <= k < |calls| && calls[k].Piece? ==> |calls[k].data| <= 4096
    ensures |BodyOf(calls)| <= |calls| * 4096
    decreases |calls|
  {
    if calls != [] {
      BodyBound(calls[1..]);
    }
  }

  lemma ErrorSize(code: nat, phrase: string, msg: string)
    requires GoodStatus(Http11, code, phrase) && MessageFits(msg)
    ensures |BodyOf(ErrorCalls(code, phrase, msg))| <= ULLONG_MAX
  {
    hide Dec, CString, BodyOf, StatusLine;
    var c := ErrorCalls(code, phrase, msg);
    assert |MessageText(msg)| == |CString(msg)| + 9;
    assert forall k :: 0 <= k < |c| && c[k].Piece? ==> |c[k].data| <= 4096;
    BodyBound(c);
  }

  lemma ErrorUnframed()
    ensures Unframed([("Content-Type", "text/html"), ("Connection", "close")])
  {
    var a: Field, b: Field := ("Content-Type", "text/html"), ("Connection", "close");
    assert [a, b][1..] == [b] && [b][1..] == [];
    assert |"Content-Type"| != |"Content-Length"| && |"Content-Type"| != |"Transfer-Encoding"|;
    assert |"Connection"| != |"Content-Length"| && |"Connection"| != |"Transfer-Encoding"|;
    assert Lookup([b], "Transfer-Encoding") == None && Lookup([b], "Content-Length") == None;
  }

  lemma ErrorUnchunked(code: nat, phrase: string, msg: string)
    ensures Unchunked(ErrorCalls(code, phrase, msg))
  {
    hide Clean, HeaderText, FieldLine, Dec, CString;
    TokensClean(("Content-Type", "text/html"));
    TokensClean(("Connection", "close"));
  }

  /** GetBuffer is not idempotent where it computes the length: it ends the head again. */
  lemma SecondGetBuffer(r: Response)
    ensures Emitted(Emitted(r)) == Emitted(r) <==> r.knownLength
  {
    if !r.knownLength {
      assert |Emitted(Emitted(r)).buffer| >= |Emitted(r).buffer| + 2;
    }
  }

  // ------------------------------------------------------------------ chunks

  function ChunkCalls(chunks: seq<string>): seq<Call>
  {
    seq(|chunks|, i requires 0 <= i < |chunks| => Chunk(chunks[i]))
  }

  lemma {:induction false} ChunksAppend(r: Response, chunks: seq<string>)
    ensures DoAll(r, ChunkCalls(chunks)) == r.(buffer := r.buffer + EncodeChunks(chunks))
    ensures r.chunked ==> Callable(r, ChunkCalls(chunks))
    decreases |chunks|
  {
    hide EncodeChunk;
    if chunks == [] {
      assert r.buffer + EncodeChunks(chunks) == r.buffer;
    } else {
      assert ChunkCalls(chunks)[1..] == ChunkCalls(chunks[1..]);
      ChunksAppend(Do(r, Chunk(chunks[0])), chunks[1..]);
      assert r.buffer + EncodeChunk(chunks[0]) + EncodeChunks(chunks[1..]) == r.buffer + (EncodeChunk(chunks[0]) + EncodeChunks(chunks[1..]));
    }
  }

  lemma {:induction false} ChunkedWins(calls: seq<Call>)
    requires ChunkedTransferHeader in calls
    requires forall k :: 0 <= k < |calls| && calls[k].Header? ==> !SameName(calls[k].field, "Transfer-Encoding")
    ensures Lookup(FieldsOf(calls), "Transfer-Encoding") == Some("chunked")
    decreases |calls|
  {
    OtherName();
    hide SameName;
    if calls[0].ChunkedTransferHeader? {
      assert FieldsOf(calls)[0] == ("Transfer-Encoding", "chunked");
    } else {
      ChunkedWins(calls[1..]);
      if calls[0].Header? {
        assert FieldsOf(calls) == [(calls[0].field, calls[0].content)] + FieldsOf(calls[1..]);
      } else {
        assert FieldsOf(calls) == FieldsOf(calls[1..]);
      }
    }
  }

  predicate ChunkedHead(heads: seq<Call>)
  {
    && ChunkedTransferHeader in heads
    && (forall k :: 0 <= k < |heads| ==> CleanCall(heads[k]) && (heads[k].Header? || heads[k].ChunkedTransferHeader?))
    && (forall k :: 0 <= k < |heads| && heads[k].Header? ==> !SameName(heads[k].field, "Transfer-Encoding"))
  }

  /** What the builder emits when asked for these headers, a blank line and these chunks. */
  function ChunkedBytes(version: Version, code: nat, phrase: string, known: bool, heads: seq<Call>, chunks: seq<string>): string
    requires version != NoVersion
  {
    Emitted(DoAll(Start(version, code, phrase, known), heads + [BlackLine] + ChunkCalls(chunks))).buffer
  }

  lemma ChunkedBytesAre(version: Version, code: nat, phrase: string, known: bool, heads: seq<Call>, chunks: seq<string>)
    requires GoodStatus(version, code, phrase) && ChunkedHead(heads)
    ensures ChunkedBytes(version, code, phrase, known, heads, chunks)
         == HeadBytes(StatusLine(version, code, phrase), FieldsOf(heads)) + EncodeChunks(chunks)
  {
    hide StatusLine, StatusText, CleanCall, SameName, EncodeChunks, FieldsOf, FieldLines, ChunkCalls, DoAll;
    var r := Start(version, code, phrase, known);
    StartIs(version, code, phrase, known);
    DoAllAppend(r, heads + [BlackLine], ChunkCalls(chunks));
    DoOneMore(r, heads, BlackLine);
    HeadersOnly(r, heads);
    ChunksAppend(Do(DoAll(r, heads), BlackLine), chunks);
  }

  /** A chunked response, whichever mode it was made in and wherever among the headers the coding
      is announced: a client gets the headers in order and the concatenation of the chunks, cut off
      where the last chunk ends, if and only if no chunk before the last is empty. */
  lemma ChunkedResponse(version: Version, code: nat, phrase: string, known: bool, heads: seq<Call>, chunks: seq<string>, rest: string)
    requires GoodStatus(version, code, phrase) && ChunkedHead(heads)
    ensures Receive(ChunkedBytes(version, code, phrase, known, heads, chunks + [""]) + rest)
            == Delimited(StatusLine(version, code, phrase), FieldsOf(heads), Flatten(chunks), rest)
            <==> "" !in chunks
  {
    hide Receive, StatusLine, CleanCall, SameName, Unchunk, EncodeChunks, FieldsOf, HeadBytes, Lookup, Flatten, ChunkedBytes;
    var status, fields, all := StatusLine(version, code, phrase), FieldsOf(heads), chunks + [""];
    ChunkedBytesAre(version, code, phrase, known, heads, all);
    FieldsClean(heads);
    HeadReads(status, fields, EncodeChunks(all) + rest);
    assert HeadBytes(status, fields) + EncodeChunks(all) + rest == HeadBytes(status, fields) + (EncodeChunks(all) + rest);
    ChunkedWins(heads);
    ChunkRoundTrip(chunks, rest);
  }

  // ------------------------------------------------------------ served files

  /** The headers ServeFile adds. */
  function FileHeaders(mime: string, size: nat, keepAlive: bool): seq<Call>
  {
    (if mime != "" then [Header("Content-Type", mime)] else [])
    + [Header("Content-Length", Dec(size))]
    + (if keepAlive then [Header("Connection", "Keep-Alive"), Header("Keep-Alive", "timeout=5")] else [])
  }

  /** The head ServeFile sends in front of the file. */
  function FileHead(mime: string, size: nat, keepAlive: bool): string
  {
    DoAll(Start(Http11, 200, "OK", true), FileHeaders(mime, size, keepAlive) + [BlackLine]).buffer
  }

  method BuildFileHead(mime: string, size: nat, keepAlive: bool) returns (head: string)
    ensures head == FileHead(mime, size, keepAlive)
  {
    hide Dec, HeaderText, StatusText, DoAll, FileHeaders;
    var response := new HttpResponse(true);
    response.AddHeaderLine(200, "OK", Http11);
    ghost var calls: seq<Call> := [];
    ghost var r := response.View();
    assert r == Start(Http11, 200, "OK", true) by {
      assert "" + StatusText(Http11, 200, "OK") == StatusText(Http11, 200, "OK");
    }
    DoNothing(r);
    if mime != "" {
      response.AddHeader("Content-Type", mime);
      DoOneMore(r, calls, Header("Content-Type", mime));
      calls := calls + [Header("Content-Type", mime)];
    }
    response.AddHeader("Content-Length", Dec(size));
    DoOneMore(r, calls, Header("Content-Length", Dec(size)));
    calls := calls + [Header("Content-Length", Dec(size))];
    if keepAlive {
      response.AddHeader("Connection", "Keep-Alive");
      DoOneMore(r, calls, Header("Connection", "Keep-Alive"));
      calls := calls + [Header("Connection", "Keep-Alive")];
      response.AddHeader("Keep-Alive", "timeout=5");
      DoOneMore(r, calls, Header("Keep-Alive", "timeout=5"));
      calls := calls + [Header("Keep-Alive", "timeout=5")];
    }
    response.AddBlackLine();
    DoOneMore(r, calls, BlackLine);
    FileHeadersAre(mime, size, keepAlive, calls);
    head := response.GetBuffer();
  }

  lemma DoNothing(r: Response)
    ensures DoAll(r, []) == r
  {
  }

  lemma FileHeadersAre(mime: string, size: nat, keepAlive: bool, calls: seq<Call>)
    requires var a: seq<Call> := if mime != "" then [Header("Content-Type", mime)] else [];
             var b := a + [Header("Content-Length", Dec(size))];
             calls == if keepAlive then b + [Header("Connection", "Keep-Alive")] + [Header("Keep-Alive", "timeout=5")] else b
    ensures calls == FileHeaders(mime, size, keepAlive)
  {
  }

  /** The fields of a served file's head. */
  function FileFields(mime: string, size: nat, keepAlive: bool): seq<Field>
  {
    FieldsOf(FileHeaders(mime, size, keepAlive))
  }

  function OkLine(): string
  {
    StatusLine(Http11, 200, "OK")
  }

  lemma OkText()
    ensures OkLine() == "HTTP/1.1 200 OK"
  {
    assert Dec(2) == "2" && Dec(20) == "20" && Dec(200) == "200";
    assert "HTTP/1.1" + " " + "200" + " " + "OK" == "HTTP/1.1 200 OK";
  }

  lemma OkStatus()
    ensures GoodStatus(Http11, 200, "OK")
  {
    hide Dec;
    DecFits(200);
    assert forall i :: 0 <= i < |Dec(200)| ==> IsDigit(Dec(200)[i]);
    NoCrOneLine(OkLine());
  }

  lemma OkLength()
    ensures |OkLine()| <= 50
  {
    hide Dec;
    DecFits(200);
  }

  /** A content type the builder can carry: no blanks, and short enough. */
  predicate GoodType(mime: string)
  {
    Token(mime) && |mime| <= 200
  }

  predicate CleanHeaders(calls: seq<Call>)
  {
    forall k :: 0 <= k < |calls| ==> CleanCall(calls[k]) && calls[k].Header?
  }

  lemma CleanHeadersAppend(a: seq<Call>, b: seq<Call>)
    requires CleanHeaders(a) && CleanHeaders(b)
    ensures CleanHeaders(a + b)
  {
    hide CleanCall;
  }

  lemma CleanOne(field: string, content: string)
    requires Clean((field, content))
    ensures CleanHeaders([Header(field, content)])
  {
    hide Clean;
  }

  lemma FileHeadersClean(mime: string, size: nat, keepAlive: bool)
    requires GoodType(mime) && size <= ULLONG_MAX
    ensures CleanHeaders(FileHeaders(mime, size, keepAlive))
  {
    hide Clean, Dec, CleanHeaders, HeaderText, FieldLine, GoodType;
    LengthFieldClean(size);
    TypeClean(mime);
    KeepAliveClean();
    NoHeaders();
    CleanOne("Content-Type", mime);
    CleanOne("Content-Length", Dec(size));
    CleanOne("Connection", "Keep-Alive");
    CleanOne("Keep-Alive", "timeout=5");
    CleanHeadersAppend([Header("Connection", "Keep-Alive")], [Header("Keep-Alive", "timeout=5")]);
    assert [Header("Connection", "Keep-Alive")] + [Header("Keep-Alive", "timeout=5")] == [Header("Connection", "Keep-Alive"), Header("Keep-Alive", "timeout=5")];
    var a: seq<Call> := if mime != "" then [Header("Content-Type", mime)] else [];
    var c: seq<Call> := if keepAlive then [Header("Connection", "Keep-Alive"), Header("Keep-Alive", "timeout=5")] else [];
    CleanHeadersAppend(a, [Header("Content-Length", Dec(size))]);
    CleanHeadersAppend(a + [Header("Content-Length", Dec(size))], c);
  }

  lemma TypeClean(mime: string)
    requires GoodType(mime)
    ensures Clean(("Content-Type", mime))
  {
    hide Clean, HeaderText, FieldLine;
    TokensClean(("Content-Type", mime));
  }

  lemma NoHeaders()
    ensures CleanHeaders([])
  {
  }

  function KeepAliveFields(keepAlive: bool): seq<Field>
  {
    if keepAlive then [("Connection", "Keep-Alive"), ("Keep-Alive", "timeout=5")] else []
  }

  lemma FileHeadersShort(mime: string, size: nat, keepAlive: bool)
    requires |mime| <= 200 && size <= ULLONG_MAX
    ensures |FieldLines(FileFields(mime, size, keepAlive))| <= 400
  {
    hide Dec, FieldLines, FileFields, KeepAliveFields;
    DecFits(size);
    var length, after := ("Content-Length", Dec(size)), KeepAliveFields(keepAlive);
    KeepAliveLines(keepAlive);
    FieldLinesCons(length, after);
    FieldLinesCons(("Content-Type", mime), [length] + after);
    FieldsAre(mime, size, keepAlive);
  }

  lemma FieldsAre(mime: string, size: nat, keepAlive: bool)
    ensures var length := ("Content-Length", Dec(size));
            var after := KeepAliveFields(keepAlive);
            FileFields(mime, size, keepAlive) ==
            if mime != "" then [("Content-Type", mime)] + ([length] + after) else [length] + after
  {
    hide Dec;
    var c := FileHeaders(mime, size, keepAlive);
    if keepAlive {
      TwoHeaders("Connection", "Keep-Alive", "Keep-Alive", "timeout=5");
    }
    var tail := if keepAlive then [Header("Connection", "Keep-Alive"), Header("Keep-Alive", "timeout=5")] else [];
    HeaderCons("Content-Length", Dec(size), tail);
    HeaderCons("Content-Type", mime, [Header("Content-Length", Dec(size))] + tail);
    assert c == if mime != "" then [Header("Content-Type", mime)] + ([Header("Content-Length", Dec(size))] + tail) else [Header("Content-Length", Dec(size))] + tail;
  }

  lemma HeaderCons(field: string, content: string, more: seq<Call>)
    ensures FieldsOf([Header(field, content)] + more) == [(field, content)] + FieldsOf(more)
  {
    assert ([Header(field, content)] + more)[1..] == more;
  }

  lemma TwoHeaders(f: string, c: string, g: string, d: string)
    ensures FieldsOf([Header(f, c), Header(g, d)]) == [(f, c), (g, d)]
  {
    HeaderCons(g, d, []);
    HeaderCons(f, c, [Header(g, d)]);
    assert [Header(g, d)] + [] == [Header(g, d)] && [Header(f, c)] + [Header(g, d)] == [Header(f, c), Header(g, d)];
  }

  lemma KeepAliveClean()
    ensures Clean(("Connection", "Keep-Alive")) && Clean(("Keep-Alive", "timeout=5"))
  {
    hide Clean, HeaderText, FieldLine;
    TokensClean(("Connection", "Keep-Alive"));
    TokensClean(("Keep-Alive", "timeout=5"));
  }

  lemma KeepAliveLines(keepAlive: bool)
    ensures |FieldLines(KeepAliveFields(keepAlive))| <= 60
  {
    var a: Field, b: Field := ("Connection", "Keep-Alive"), ("Keep-Alive", "timeout=5");
    NoFieldLines();
    FieldLinesCons(b, []);
    FieldLinesCons(a, [b]);
    assert [a] + [b] == [a, b] && [b] + [] == [b];
  }

  /** The head of a served file is far smaller than the first part of the response may be, and a
      client reads its length as the size of the file. */
  lemma FileHeadIs(mime: string, size: nat, keepAlive: bool)
    requires GoodType(mime) && size <= ULLONG_MAX
    ensures FileHead(mime, size, keepAlive) == HeadBytes(OkLine(), FileFields(mime, size, keepAlive))
    ensures |FileHead(mime, size, keepAlive)| <= 512 < FileStream.BUFFER
  {
    hide DoAll, FileHeaders, FieldLines, StatusLine, CleanCall, FieldsOf, StatusText;
    OkStatus();
    StartIs(Http11, 200, "OK", true);
    FileHeadersClean(mime, size, keepAlive);
    FileHeadersShort(mime, size, keepAlive);
    OkLength();
    var r := Start(Http11, 200, "OK", true);
    DoOneMore(r, FileHeaders(mime, size, keepAlive), BlackLine);
    HeadersOnly(r, FileHeaders(mime, size, keepAlive));
  }

  lemma FileFraming(mime: string, size: nat, keepAlive: bool, b: string)
    requires GoodType(mime) && size <= ULLONG_MAX
    ensures Receive(FileHead(mime, size, keepAlive) + b) ==
            if size <= |b| then Delimited(OkLine(), FileFields(mime, size, keepAlive), b[..size], b[size..]) else Unfinished
  {
    hide Receive, FileHead, FileHeaders, FieldsOf, CleanCall, Clean, HeadBytes, FrameBody, Lookup, FileFields, OkLine;
    var fields := FileFields(mime, size, keepAlive);
    FileHeadIs(mime, size, keepAlive);
    FileFieldsClean(mime, size, keepAlive);
    HeadReads(OkLine(), fields, b);
    FileLookup(mime, size, keepAlive);
    LengthReads(OkLine(), fields, size, b);
  }

  lemma FileFieldsClean(mime: string, size: nat, keepAlive: bool)
    requires GoodType(mime) && size <= ULLONG_MAX
    ensures forall k :: 0 <= k < |FileFields(mime, size, keepAlive)| ==> Clean(FileFields(mime, size, keepAlive)[k])
    ensures OneLine(OkLine())
  {
    hide FileHeaders, FieldsOf, CleanCall, Clean, StatusLine;
    OkStatus();
    FileHeadersClean(mime, size, keepAlive);
    FieldsClean(FileHeaders(mime, size, keepAlive));
  }

  lemma FileLookup(mime: string, size: nat, keepAlive: bool)
    ensures Lookup(FileFields(mime, size, keepAlive), "Transfer-Encoding").None?
    ensures Lookup(FileFields(mime, size, keepAlive), "Content-Length") == Some(Dec(size))
  {
    hide Dec, FileFields;
    OtherName();
    FieldsAre(mime, size, keepAlive);
    var length: Field := ("Content-Length", Dec(size));
    var after: seq<Field> := KeepAliveFields(keepAlive);
    LookupPast(keepAlive);
    assert ([length] + after)[1..] == after;
    if mime != "" {
      assert ([("Content-Type", mime)] + ([length] + after))[1..] == [length] + after;
    }
  }

  lemma LookupPast(keepAlive: bool)
    ensures Lookup(KeepAliveFields(keepAlive), "Transfer-Encoding").None? && Lookup(KeepAliveFields(keepAlive), "Content-Length").None?
  {
    var a: Field, b: Field := ("Connection", "Keep-Alive"), ("Keep-Alive", "timeout=5");
    assert [a, b][1..] == [b] && [b][1..] == [];
    assert Lookup([b], "Transfer-Encoding") == None && Lookup([b], "Content-Length") == None;
  }

  /** A served file's head says "Connection: Keep-Alive" if and only if the request asked for it. */
  lemma ConnectionField(mime: string, size: nat, keepAlive: bool)
    ensures Lookup(FileFields(mime, size, keepAlive), "Connection") == if keepAlive then Some("Keep-Alive") else None
  {
    hide Dec, FileFields;
    FieldsAre(mime, size, keepAlive);
    var length: Field := ("Content-Length", Dec(size));
    var after: seq<Field> := KeepAliveFields(keepAlive);
    ConnectionNames();
    ConnectionHere(keepAlive);
    assert ([length] + after)[0] == length && ([length] + after)[1..] == after;
    if mime != "" {
      assert ([("Content-Type", mime)] + ([length] + after))[1..] == [length] + after;
    }
  }

  lemma ConnectionHere(keepAlive: bool)
    ensures Lookup(KeepAliveFields(keepAlive), "Connection") == if keepAlive then Some("Keep-Alive") else None
  {
  }

  lemma ConnectionNames()
    ensures !SameName("Content-Type", "Connection") && !SameName("Content-Length", "Connection") && SameName("Connection", "Connection")
  {
    assert |"Content-Type"| != |"Connection"| && |"Content-Length"| != |"Connection"|;
  }

  function PreadErrorPage(): string
  {
    ClientError(500, "Internal ServerError", "pread() error")
  }

  /** Behind `before`, the head, what has been read of the file and the error page, which a client takes
      for the file. */
  ghost predicate TakenForFile(before: string, sent: string, mime: string, file: string, keepAlive: bool, read: string)
  {
    var b := read + PreadErrorPage();
    && sent == before + (FileHead(mime, |file|, keepAlive) + b)
    && Receive(FileHead(mime, |file|, keepAlive) + b) ==
       if |file| <= |b| then Delimited(OkLine(), FileFields(mime, |file|, keepAlive), b[..|file|], b[|file|..]) else Unfinished
  }

  /** After a read error on the way, from offset 0, the client takes the error page for bytes of the
      file: it gets what was sent of the file with the page behind it, cut at the announced size, or
      waits for more where both together are shorter. */
  lemma FailureArrives(
      s: FileStream.Session, t: FileStream.Session, mime: string, file: string, n: nat, mmap: bool, keepAlive: bool, rs: seq<FileStream.Read>)
    requires GoodType(mime) && |file| <= ULLONG_MAX && s.cache == 0
    requires FileStream.Started(s, t, FileHead(mime, |file|, keepAlive), file, n, mmap)
    requires FileStream.IsRun(t, file, keepAlive, rs) && FileStream.After(t, file, keepAlive, rs).failed
    ensures var e := FileStream.After(t, file, keepAlive, rs);
            TakenForFile(s.sent, e.sent, mime, file, keepAlive, FileStream.From(file, 0, e.cache))
  {
    hide Receive, FileHead, FileFields, FileStream.IsRun, FileStream.After, ClientError, FileStream.From, OkLine, GoodType;
    var head := FileHead(mime, |file|, keepAlive);
    var e := FileStream.After(t, file, keepAlive, rs);
    FileStream.FailureSendsPage(s, t, head, file, n, mmap, keepAlive, rs);
    FailureBytes(s.sent, head, file, n, e.cache, PreadErrorPage());
    FileFraming(mime, |file|, keepAlive, FileStream.From(file, 0, e.cache) + PreadErrorPage());
  }

  lemma FailureBytes(before: string, head: string, file: string, n: nat, c: nat, page: string)
    requires n <= c && n <= |file|
    ensures before + head + file[..n] + FileStream.From(file, n, c) + page == before + (head + (FileStream.From(file, 0, c) + page))
  {
    var read := FileStream.From(file, 0, c);
    assert read == file[..n] + FileStream.From(file, n, c);
  }

  /** Builder, streaming and client together. On any session, whatever was sent on the connection
      before, by pread under any short reads or from the mapping: once a served file's response has
      completed, the client gets exactly the file and nothing is left over, if and only if the
      session's offset was 0 or the first part held the whole file; otherwise it waits for bytes
      that never come. The connection is kept if and only if the client reads "Connection:
      Keep-Alive". */
  lemma ServedFileArrives(
      s: FileStream.Session, t: FileStream.Session, mime: string, file: string, n: nat, mmap: bool, keepAlive: bool, rs: seq<FileStream.Read>)
    requires GoodType(mime) && |file| <= ULLONG_MAX
    requires FileStream.Started(s, t, FileHead(mime, |file|, keepAlive), file, n, mmap)
    requires FileStream.IsRun(t, file, keepAlive, rs) && FileStream.Completed(FileStream.After(t, file, keepAlive, rs))
    ensures var e := FileStream.After(t, file, keepAlive, rs);
            && s.sent <= e.sent
            && Receive(e.sent[|s.sent|..]) ==
               if s.cache == 0 || n == |file| then Delimited(OkLine(), FileFields(mime, |file|, keepAlive), file, "") else Unfinished
    ensures Lookup(FileFields(mime, |file|, keepAlive), "Connection") == Some("Keep-Alive")
       <==> FileStream.After(t, file, keepAlive, rs).ending == FileStream.KeepAliveTimer
    ensures Lookup(FileFields(mime, |file|, keepAlive), "Connection") == None
       <==> FileStream.After(t, file, keepAlive, rs).ending == FileStream.WriteShutdown
  {
    hide Receive, FileHead, FileFields, FileStream.IsRun, FileStream.After, FileStream.Completed, Lookup;
    ConnectionField(mime, |file|, keepAlive);
    FileStream.EndsAsAsked(s, t, FileHead(mime, |file|, keepAlive), file, n, mmap, keepAlive, rs);
    assert n <= |file|;
    var head := FileHead(mime, |file|, keepAlive);
    var e := FileStream.After(t, file, keepAlive, rs);
    FileStream.SendsExactly(s, t, head, file, n, mmap, keepAlive, rs);
    var b := e.sent[|s.sent + head|..];
    assert e.sent == s.sent + head + b;
    assert e.sent[|s.sent|..] == head + b;
    FileFraming(mime, |file|, keepAlive, b);
    if s.cache == 0 || n == |file| {
      assert b == file;
    } else {
      assert |b| < |file|;
    }
  }
}
