/** The response builder of src/common/http_response.h and .cc, and what a client that frames
    messages as section 3.3.3 of RFC 7230 says makes of its output. */
module HttpResponse {
  import opened Text
  import opened HttpMessage
  import opened ChunkCoding

  // ------------------------------------------------------------ the builder

  datatype Response = Response(buffer: string, body: string, knownLength: bool, chunked: bool)

  datatype Call =
    | Header(field: string, content: string)
    | BlackLine
    | Piece(data: string)
    | ChunkedTransferHeader
    | Chunk(data: string)

  /** snprintf into a buffer of `size` bytes, read back as a string. */
  function Snprintf(size: nat, text: string): string
    requires size > 0
  {
    if |text| < size then text else text[..size - 1]
  }

  function HeaderText(field: string, content: string): string
  {
    Snprintf(256, CString(field) + ": " + CString(content) + CRLF)
  }

  /** AddHeaderLine: version, then status code and phrase through a buffer of 255 bytes. */
  function StatusText(version: Version, code: nat, phrase: string): string
    requires version != NoVersion
  {
    VersionText(version) + Snprintf(255, " " + Dec(code) + " " + phrase + CRLF)
  }

  function Do(r: Response, c: Call): Response
  {
    match c
    case Header(field, content) => r.(buffer := r.buffer + HeaderText(field, content))
    case BlackLine => if r.knownLength then r.(buffer := r.buffer + CRLF) else r
    case Piece(data) => if r.knownLength then r.(buffer := r.buffer + data) else r.(body := r.body + data)
    case ChunkedTransferHeader =>
      r.(knownLength := true, chunked := true, buffer := r.buffer + HeaderText("Transfer-Encoding", "chunked"))
    case Chunk(data) => r.(buffer := r.buffer + EncodeChunk(data))
  }

  function DoAll(r: Response, calls: seq<Call>): Response
    decreases |calls|
  {
    if calls == [] then r else DoAll(Do(r, calls[0]), calls[1..])
  }

  /** GetBuffer; where the length is computed, it is this call that ends the head. */
  function Emitted(r: Response): Response
  {
    if r.knownLength then r else
    var head := if r.body != "" then r.buffer + HeaderText("Content-Length", Dec(|r.body|)) else r.buffer;
    r.(buffer := head + CRLF + r.body)
  }

  function MessageText(msg: string): string
  {
    "<p>" + CString(msg) + "</p>" + CRLF
  }

  /** With the text around it and a NUL it fits the 4096 bytes GetClientError formats it through; the
      count of a longer text would go beyond them. */
  predicate MessageFits(msg: string)
  {
    |CString(msg)| + 10 <= 4096
  }

  /** The calls GetClientError makes behind the status line, for a message that fits. */
  function ErrorCalls(code: nat, phrase: string, msg: string): seq<Call>
  {
    [Header("Content-Type", "text/html"), Header("Connection", "close"), BlackLine,
     Piece("<html>"), Piece("<title>Kanon Error</title>"), Piece("<body bgcolor=\"#ffffff\">"),
     Piece("<h1 align=\"center\">" + Dec(code) + " " + phrase + "</h1>" + CRLF),
     Piece(MessageText(msg)), Piece("<div>"),
     Piece("<center><hr><em>This is a simple http server(Kanon)</em></center>"),
     Piece("</div>"), Piece("</body>"), Piece("</html>" + CRLF)]
  }

  /** GetClientError, its length computed. */
  function ClientError(code: nat, phrase: string, msg: string): string
  {
    Emitted(DoAll(Response(StatusText(Http11, code, phrase), "", false, false), ErrorCalls(code, phrase, msg))).buffer
  }

  /** AddChunk asserts that the chunked header has been asked for. */
  ghost predicate Callable(r: Response, calls: seq<Call>)
    decreases |calls|
  {
    calls != [] ==> (calls[0].Chunk? ==> r.chunked) && Callable(Do(r, calls[0]), calls[1..])
  }

  class HttpResponse {
    var buffer: string
    var body: string
    var knownLength: bool
    var chunked: bool

    constructor (known: bool)
      ensures View() == Response("", "", known, false)
    {
      buffer, body, knownLength, chunked := "", "", known, false;
    }

    function View(): Response
      reads this
    {
      Response(buffer, body, knownLength, chunked)
    }

    method AddHeaderLine(code: nat, phrase: string, version: Version)
      requires version != NoVersion
      modifies this`buffer
      ensures View() == old(View()).(buffer := old(buffer) + StatusText(version, code, phrase))
    {
      buffer := buffer + VersionText(version);
      buffer := buffer + Snprintf(255, " " + Dec(code) + " " + phrase + CRLF);
    }

    method AddHeader(field: string, content: string)
      modifies this`buffer
      ensures View() == Do(old(View()), Header(field, content))
    {
      var buf := new char[256];
      var line := CString(field) + ": " + CString(content) + CRLF;
      var n := if |line| < 256 then |line| else 255;
      forall i | 0 <= i < n {
        buf[i] := line[i];
      }
      assert buf[..n] == line[..n] == HeaderText(field, content);
      buffer := buffer + buf[..n];
    }

    method AddChunkedTransferHeader()
      modifies this
      ensures View() == Do(old(View()), ChunkedTransferHeader)
    {
      knownLength := true;
      chunked := true;
      AddHeader("Transfer-Encoding", "chunked");
    }

    method AddBlackLine()
      modifies this`buffer
      ensures View() == Do(old(View()), BlackLine)
    {
      if knownLength {
        buffer := buffer + CRLF;
      }
    }

    method AddBody(data: string)
      modifies this`buffer, this`body
      ensures View() == Do(old(View()), Piece(data))
    {
      if knownLength {
        buffer := buffer + data;
      } else {
        body := body + data;
      }
    }

    method AddChunk(data: string)
      requires chunked && |data| <= ULLONG_MAX
      modifies this`buffer
      ensures View() == Do(old(View()), Chunk(data))
    {
      var size := Dec2Hex(|data|);
      buffer := buffer + size;
      buffer := buffer + CRLF;
      buffer := buffer + data;
      buffer := buffer + CRLF;
    }

    method GetBuffer() returns (bytes: string)
      modifies this`buffer
      ensures View() == Emitted(old(View())) && bytes == buffer
    {
      if !knownLength {
        if |body| != 0 {
          AddHeader("Content-Length", Dec(|body|));
        }
        buffer := buffer + CRLF;
        buffer := buffer + body;
      }
      bytes := buffer;
    }
  }

  // -------------------------------------------------------------- the client

  function TrimLeft(s: string): string
  {
    if s != "" && (s[0] == ' ' || s[0] == '\t') then TrimLeft(s[1..]) else s
  }

  function TrimRight(s: string): string
  {
    if s != "" && (s[|s| - 1] == ' ' || s[|s| - 1] == '\t') then TrimRight(s[..|s| - 1]) else s
  }

  /** Header fields up to the blank line (sections 3.2 and 3.2.4 of RFC 7230): the fields in
      order and what is behind the blank line, or None if it is not there or a line has no colon. */
  function ReadFields(b: string): Option<(seq<Field>, string)>
    decreases |b|
  {
    var i := FindCrLf(b);
    if i == |b| then None
    else if i == 0 then Some(([], b[2..])) else
    var line := b[..i];
    var c := Find(line, ':');
    if c == i then None else
    match ReadFields(b[i + 2..])
    case None => None
    case Some(more) => Some(([(line[..c], TrimRight(TrimLeft(line[c + 1..])))] + more.0, more.1))
  }

  predicate SameName(a: string, b: string)
  {
    |a| == |b| && forall i :: 0 <= i < |a| ==> ToLower(a[i]) == ToLower(b[i])
  }

  /** The first field of that name, in any case. */
  function Lookup(fields: seq<Field>, name: string): Option<string>
    decreases |fields|
  {
    if fields == [] then None
    else if SameName(fields[0].0, name) then Some(fields[0].1)
    else Lookup(fields[1..], name)
  }

  datatype Framing =
    | Delimited(status: string, fields: seq<Field>, body: string, rest: string)
    | UntilClose(status: string, fields: seq<Field>, body: string)
    | Unfinished
    | Bad

  function FrameBody(status: string, fields: seq<Field>, b: string): Framing
  {
    match Lookup(fields, "Transfer-Encoding")
    case Some(coding) =>
      if coding != "chunked" then UntilClose(status, fields, b) else
      (match Unchunk(b)
       case Whole(body, rest) => Delimited(status, fields, body, rest)
       case Partial => Unfinished
       case Malformed => Bad)
    case None =>
      match Lookup(fields, "Content-Length")
      case Some(v) =>
        if v == "" || exists i :: 0 <= i < |v| && !IsDigit(v[i]) then Bad else
        var n := DigitsValue(v, 0);
        if n <= |b| then Delimited(status, fields, b[..n], b[n..]) else Unfinished
      case None => UntilClose(status, fields, b)
  }

  /** Section 3.3.3 of RFC 7230, for a response with a body: chunks, then Content-Length, and
      otherwise everything until the connection is closed. */
  function Receive(b: string): Framing
  {
    var i := FindCrLf(b);
    if i == |b| then Unfinished else
    match ReadFields(b[i + 2..])
    case None => Unfinished
    case Some(head) => FrameBody(b[..i], head.0, head.1)
  }

  // ----------------------------------------------------------- header fields

  /** The field arrives as it was given. */
  lemma HeaderIntact(field: string, content: string)
    ensures HeaderText(field, content) == FieldLine((field, content)) + CRLF
       <==> '\0' !in field && '\0' !in content && |field| + |content| + 4 <= 255
  {
    var line := CString(field) + ": " + CString(content) + CRLF;
    if '\0' in field || '\0' in content {
      assert |CString(field)| + |CString(content)| < |field| + |content|;
    } else {
      FindNone(field, '\0');
      FindNone(content, '\0');
      assert CString(field) == field && CString(content) == content;
    }
  }

  /** A header that is too long loses its line end, so it runs into what is added next. */
  lemma LongHeaderLosesItsEnd(field: string, content: string)
    requires |CString(field)| + |CString(content)| + 4 > 256
    ensures var line := FieldLine((CString(field), CString(content)));
            HeaderText(field, content) == line[..255] && |line| >= 255
  {
    var line := FieldLine((CString(field), CString(content)));
    assert (line + CRLF)[..255] == line[..255];
  }

  /** A field a client reads back as it was given. */
  predicate Clean(f: Field)
  {
    && '\0' !in f.0 && '\0' !in f.1 && |f.0| + |f.1| + 4 <= 255
    && ':' !in f.0 && OneLine(FieldLine(f)) && TrimRight(TrimLeft(f.1)) == f.1
  }

  lemma FieldReads(f: Field, behind: string)
    requires Clean(f)
    ensures ReadFields(FieldLine(f) + CRLF + behind) ==
            if ReadFields(behind).None? then None else Some(([f] + ReadFields(behind).value.0, ReadFields(behind).value.1))
  {
    hide TrimLeft, TrimRight;
    var line := FieldLine(f);
    var b := line + CRLF + behind;
    FindCrLfLine(line, behind);
    assert b[..|line|] == line && b[|line| + 2..] == behind;
    assert line == f.0 + [':'] + (" " + f.1);
    FindIn(f.0, ':', " " + f.1);
    assert line[..|f.0|] == f.0 && line[|f.0| + 1..] == " " + f.1;
    TrimBlank(f.1);
  }

  lemma {:induction false} FieldsRead(fields: seq<Field>, rest: string)
    requires forall k :: 0 <= k < |fields| ==> Clean(fields[k])
    ensures ReadFields(FieldLines(fields) + CRLF + rest) == Some((fields, rest))
    decreases |fields|
  {
    var b := FieldLines(fields) + CRLF + rest;
    if fields == [] {
      assert b == "" + CRLF + rest;
      FindCrLfLine("", rest);
      assert b[2..] == rest;
    } else {
      hide ReadFields, Clean;
      var behind := FieldLines(fields[1..]) + CRLF + rest;
      assert b == FieldLine(fields[0]) + CRLF + behind;
      FieldReads(fields[0], behind);
      FieldsRead(fields[1..], rest);
      assert [fields[0]] + fields[1..] == fields;
    }
  }

  lemma TrimBlank(s: string)
    ensures TrimLeft(" " + s) == TrimLeft(s)
  {
    assert (" " + s)[1..] == s;
  }

  // ---------------------------------------------------------------- the head

  /** A head: status line, fields, blank line. */
  function HeadBytes(status: string, fields: seq<Field>): string
  {
    status + CRLF + FieldLines(fields) + CRLF
  }

  lemma HeadReads(status: string, fields: seq<Field>, rest: string)
    requires OneLine(status) && forall k :: 0 <= k < |fields| ==> Clean(fields[k])
    ensures Receive(HeadBytes(status, fields) + rest) == FrameBody(status, fields, rest)
  {
    hide FrameBody, ReadFields;
    var behind := FieldLines(fields) + CRLF + rest;
    var b := HeadBytes(status, fields) + rest;
    assert b == status + CRLF + behind;
    FindCrLfLine(status, behind);
    assert b[..|status|] == status && b[|status| + 2..] == behind;
    FieldsRead(fields, rest);
  }

  lemma {:induction false} FieldLinesAppend(a: seq<Field>, f: Field)
    ensures FieldLines(a + [f]) == FieldLines(a) + FieldLine(f) + CRLF
    decreases |a|
  {
    if a == [] {
      assert a + [f] == [f];
      assert FieldLines([f]) == FieldLine(f) + CRLF + FieldLines([]);
    } else {
      assert (a + [f])[0] == a[0] && (a + [f])[1..] == a[1..] + [f];
      FieldLinesAppend(a[1..], f);
      var x, y := FieldLine(a[0]) + CRLF, FieldLines(a[1..]);
      assert x + (y + FieldLine(f) + CRLF) == x + y + FieldLine(f) + CRLF;
    }
  }

  lemma {:induction false} LookupAppend(a: seq<Field>, f: Field, name: string)
    ensures Lookup(a + [f], name) ==
            if Lookup(a, name).Some? then Lookup(a, name) else if SameName(f.0, name) then Some(f.1) else None
    decreases |a|
  {
    if a == [] {
      assert a + [f] == [f];
    } else {
      assert (a + [f])[0] == a[0] && (a + [f])[1..] == a[1..] + [f];
      LookupAppend(a[1..], f, name);
    }
  }

  /** No field of the caller's own frames the message. */
  predicate Unframed(fields: seq<Field>)
  {
    Lookup(fields, "Content-Length").None? && Lookup(fields, "Transfer-Encoding").None?
  }

  lemma OtherName()
    ensures !SameName("Content-Length", "Transfer-Encoding") && SameName("Content-Length", "Content-Length")
    ensures !SameName("Transfer-Encoding", "Content-Length") && SameName("Transfer-Encoding", "Transfer-Encoding")
  {
  }
}
