/** The character-level request-line automaton. */
module RequestLine {
  // The set of lines HttpRequestParser accepts, and what happens when a line arrives in several
  // reads. Positions are offsets from the start of the readable bytes.

  import opened Text
  import opened HttpMessage
  import HttpParser

  datatype LineState =
    | Start | InMethod | SpacesBeforeUrl | Scheme | SchemeSlash | SchemeDoubleSlash | Host | Port
    | AfterSlashInUrl | CheckUrl | Url | H | HT | HTT | HTTP | FirstMajorDigit | MajorDigit | VersionDot
    | FirstMinorDigit | MinorDigit | CrLfAfterMinor | AlmostDone | Done

  datatype Rejection = InvalidMethod | InvalidUrl | InvalidHttpVersion | InvalidHttpRequest

  /** The automaton's variables; -1 is nullptr. */
  datatype Auto = Auto(
    state: LineState, verb: Method, isStatic: bool, isComplex: bool,
    schemeStart: int, schemeEnd: int, hostStart: int, hostEnd: int, portStart: int, portEnd: int,
    urlStart: int, urlEnd: int, major: int, minor: int)

  const INITIAL := Auto(Start, NotSupport, true, false, -1, -1, -1, -1, -1, -1, -1, -1, 0, 0)

  datatype Move = Go(a: Auto) | Reject(why: Rejection, a: Auto)

  predicate IsUpper(c: char)
  {
    'A' <= c <= 'Z'
  }

  predicate IsLetter(c: char)
  {
    IsUpper(c) || 'a' <= c <= 'z'
  }

  predicate IsHostChar(c: char)
  {
    IsLetter(c) || IsDigit(c) || c == '.' || c == '-'
  }

  predicate IsBlank(c: char)
  {
    c == ' '
  }

  predicate NotBlank(c: char)
  {
    c != ' '
  }

  predicate IsP(c: char)
  {
    c == 'P'
  }

  const CAPITALS: string := "ABCDEFGHIJKLMNOPQRSTUVWXYZ"

  const LETTERS: string := CAPITALS + "abcdefghijklmnopqrstuvwxyz"

  const HOST_CHARS: string := LETTERS + "0123456789.-"

  predicate Spelled(chars: string, s: string)
  {
    forall i :: 0 <= i < |s| ==> s[i] in chars
  }

  /** The classes, character by character. */
  lemma Alphabets(c: char)
    ensures IsUpper(c) <==> c in CAPITALS
    ensures IsLetter(c) <==> c in LETTERS
    ensures IsDigit(c) <==> c in "0123456789"
    ensures IsHostChar(c) <==> c in HOST_CHARS
  {
    assert IsUpper(c) <==> c in CAPITALS;
    assert 'a' <= c <= 'z' <==> c in "abcdefghijklmnopqrstuvwxyz";
    assert IsDigit(c) <==> c in "0123456789";
    assert c == '.' || c == '-' <==> c in ".-";
  }

  function DigitOf(c: char): int
  {
    HttpParser.SignedChar(c) - '0' as int
  }

  /** A byte from 0x80 on counts as negative. */
  lemma SignedDigits(c: char)
    ensures DigitOf(c) == if c < '\U{80}' then c as int - 48 else c as int - 304
  {
  }

  /** The three states inside the path, on anything but a space. */
  function PathStep(a: Auto, c: char): Auto
    requires a.state in {AfterSlashInUrl, CheckUrl, Url}
  {
    match a.state
    case AfterSlashInUrl =>
      if c == '?' then a.(isStatic := false, isComplex := true, state := Url)
      else if c == '.' || c == '%' then a.(isComplex := true, state := Url)
      else if c == '/' then a.(isComplex := true)
      else a.(state := CheckUrl)
    case CheckUrl =>
      if c == '/' then a.(state := AfterSlashInUrl)
      else if c == '?' then a.(isComplex := true, isStatic := false, state := Url)
      else if c == '%' then a.(isComplex := true, state := Url)
      else a
    case Url => a
  }

  /** One character, s[i]. */
  function Next(a: Auto, s: string, i: nat): Move
    requires i < |s| && a.state != Done
  {
    var c := s[i];
    match a.state
    case Start =>
      if c == '\r' || c == '\n' then Reject(InvalidHttpRequest, a)
      else if !IsUpper(c) then Reject(InvalidMethod, a)
      else Go(a.(state := InMethod))
    case InMethod =>
      if c == ' ' then
        var verb := MethodOf(s[..i]);
        if verb == NotSupport then Reject(InvalidMethod, a.(verb := verb))
        else Go(a.(verb := verb, isStatic := a.isStatic && verb != Post, state := SpacesBeforeUrl))
      else if !IsUpper(c) then Reject(InvalidMethod, a)
      else Go(a)
    case SpacesBeforeUrl =>
      if c == ' ' then Go(a)
      else if c == '/' then Go(a.(urlStart := i, state := AfterSlashInUrl))
      else if IsLetter(c) then Go(a.(schemeStart := i, state := Scheme))
      else Reject(InvalidUrl, a)
    case Scheme =>
      if c == ':' then Go(a.(schemeEnd := i, state := SchemeSlash))
      else if !IsLetter(c) then Reject(InvalidUrl, a)
      else Go(a)
    case SchemeSlash =>
      if c == '/' then Go(a.(state := SchemeDoubleSlash)) else Reject(InvalidUrl, a)
    case SchemeDoubleSlash =>
      if c == '/' then Go(a.(hostStart := i + 1, state := Host)) else Reject(InvalidUrl, a)
    case Host =>
      if c == '/' then Go(a.(hostEnd := i, urlStart := i, state := AfterSlashInUrl))
      else if c == ':' then Go(a.(hostEnd := i, portStart := i + 1, state := Port))
      else if IsHostChar(c) then Go(a)
      else Reject(InvalidUrl, a)
    case Port =>
      if c == '/' then Go(a.(portEnd := i, urlStart := i, state := AfterSlashInUrl))
      else if !IsDigit(c) then Reject(InvalidUrl, a)
      else Go(a)
    case AfterSlashInUrl => Go(if c == ' ' then a.(urlEnd := i, state := H) else PathStep(a, c))
    case CheckUrl => Go(if c == ' ' then a.(urlEnd := i, state := H) else PathStep(a, c))
    case Url => Go(if c == ' ' then a.(urlEnd := i, state := H) else PathStep(a, c))
    case H =>
      if c == ' ' then Go(a)
      else if c != 'H' then Reject(InvalidHttpVersion, a)
      else Go(a.(state := HT))
    case HT => if c == 'T' then Go(a.(state := HTT)) else Reject(InvalidHttpVersion, a)
    case HTT => if c == 'T' then Go(a.(state := HTTP)) else Reject(InvalidHttpVersion, a)
    case HTTP =>
      if c == '/' then Go(a.(state := FirstMajorDigit))
      else if c != 'P' then Reject(InvalidHttpVersion, a)
      else Go(a)
    case FirstMajorDigit =>
      if !IsDigit(c) then Reject(InvalidHttpVersion, a)
      else Go(a.(major := DigitOf(c), state := MajorDigit))
    case MajorDigit =>
      if c == '.' then Go(a.(state := FirstMinorDigit))
      else if !IsDigit(c) then Reject(InvalidHttpVersion, a)
      else Go(a.(major := a.major * 10 + DigitOf(c), state := VersionDot))
    case VersionDot =>
      if c == '.' then Go(a.(state := FirstMinorDigit)) else Reject(InvalidHttpVersion, a)
    case FirstMinorDigit =>
      if !IsDigit(c) then Reject(InvalidHttpVersion, a)
      else Go(a.(minor := DigitOf(c), state := MinorDigit))
    case MinorDigit =>
      if c == '\r' then Go(a.(state := AlmostDone))
      else if c == '\n' then Go(a.(state := Done))
      else Go(a.(minor := a.minor * 10 + DigitOf(c), state := CrLfAfterMinor))
    case CrLfAfterMinor =>
      if c == '\r' then Go(a.(state := AlmostDone))
      else if c == '\n' then Go(a.(state := Done))
      else Reject(InvalidHttpRequest, a)
    case AlmostDone =>
      if c == '\n' then Go(a.(state := Done)) else Reject(InvalidHttpRequest, a)
  }

  /** The loop: kOk with the position behind the line, kAgain at the end of the bytes, or a
      rejection with the position of the offending character. */
  datatype Outcome = Ok(a: Auto, pos: nat) | Again(a: Auto) | Bad(why: Rejection, a: Auto, pos: nat)

  function Run(a: Auto, s: string, i: nat): Outcome
    requires i <= |s|
    decreases |s| - i
  {
    if a.state == Done then Ok(a, i)
    else if i == |s| then Again(a)
    else match Next(a, s, i)
      case Reject(why, b) => Bad(why, b, i)
      case Go(b) => Run(b, s, i + 1)
  }

  // ---------------------------------------------------------- the grammar

  /** Where the parts of an accepted line lie. */
  datatype Marks = Marks(
    verbEnd: nat,      // the space after the method
    token: nat,        // the URL token
    schemeEnd: nat,    // its ':' (only with an authority)
    hostEnd: nat,
    path: nat,         // the '/' the path begins with
    pathEnd: nat,      // the space after the URL token
    version: nat,      // the 'H'
    slash: nat,        // the '/' behind it
    dot: nat,
    minorEnd: nat,
    end: nat)          // behind the line end

  predicate All(p: char -> bool, s: string, i: nat, j: nat)
  {
    i <= j <= |s| && forall k :: i <= k < j ==> p(s[k])
  }

  predicate HasAuthority(k: Marks)
  {
    k.token < k.path
  }

  /** scheme://host[:port] in front of the path. */
  predicate IsAuthority(s: string, k: Marks)
  {
    && k.token < k.schemeEnd && All(IsLetter, s, k.token, k.schemeEnd)
    && k.schemeEnd + 3 <= k.hostEnd <= k.path < |s|
    && s[k.schemeEnd] == ':' && s[k.schemeEnd + 1] == '/' && s[k.schemeEnd + 2] == '/'
    && All(IsHostChar, s, k.schemeEnd + 3, k.hostEnd)
    && (k.hostEnd < k.path ==> s[k.hostEnd] == ':' && All(IsDigit, s, k.hostEnd + 1, k.path))
  }

  predicate IsMethod(s: string, k: Marks)
  {
    && k.verbEnd < k.token && k.verbEnd < |s| && MethodOf(s[..k.verbEnd]) != NotSupport
    && All(IsBlank, s, k.verbEnd, k.token)
  }

  predicate IsUrlToken(s: string, k: Marks)
  {
    && k.token <= k.path < k.pathEnd < |s|
    && (HasAuthority(k) ==> IsAuthority(s, k))
    && s[k.path] == '/' && All(NotBlank, s, k.path, k.pathEnd) && s[k.pathEnd] == ' '
  }

  predicate IsVersion(s: string, k: Marks)
  {
    && k.pathEnd < k.version && k.version + 3 <= k.slash && k.slash + 2 <= k.dot <= k.slash + 3
    && k.dot + 2 <= k.minorEnd <= k.dot + 3 && k.minorEnd < k.end <= |s|
    && All(IsBlank, s, k.pathEnd, k.version)
    && s[k.version] == 'H' && s[k.version + 1] == 'T' && s[k.version + 2] == 'T'
    && All(IsP, s, k.version + 3, k.slash) && s[k.slash] == '/'
    && All(IsDigit, s, k.slash + 1, k.dot) && s[k.dot] == '.' && IsDigit(s[k.dot + 1])
    && (k.minorEnd == k.dot + 3 ==> s[k.dot + 2] != '\r' && s[k.dot + 2] != '\n')
    && (if s[k.minorEnd] == '\n' then k.end == k.minorEnd + 1
        else s[k.minorEnd] == '\r' && k.end == k.minorEnd + 2 && s[k.minorEnd + 1] == '\n')
  }

  /** What the automaton accepts, by position: a supported method, blanks, an absolute path or
      scheme://host[:port]/path, blanks, "HTT", any number of 'P', '/', one or two digits, '.', a
      digit and perhaps one more character of any kind, and CR LF or LF. */
  predicate IsRequestLine(s: string, k: Marks)
  {
    IsMethod(s, k) && IsUrlToken(s, k) && IsVersion(s, k)
  }

  /** The protocol name and minor version as they should be spelled. */
  predicate IsStrict(s: string, k: Marks)
    requires IsRequestLine(s, k)
  {
    k.slash == k.version + 4 && (k.minorEnd == k.dot + 3 ==> IsDigit(s[k.dot + 2]))
  }

  function PathFold(a: Auto, w: string): (b: Auto)
    requires a.state in {AfterSlashInUrl, CheckUrl, Url}
    ensures b.state in {AfterSlashInUrl, CheckUrl, Url}
    ensures b == a.(state := b.state, isComplex := b.isComplex, isStatic := b.isStatic)
    decreases |w|
  {
    if w == "" then a else PathFold(PathStep(a, w[0]), w[1..])
  }

  function Number(s: string, i: nat, j: nat): int
    requires i < j <= |s| && j <= i + 2
  {
    if j == i + 1 then DigitOf(s[i]) else DigitOf(s[i]) * 10 + DigitOf(s[i + 1])
  }

  /** Everything the automaton has recorded when it accepts. */
  function Recorded(s: string, k: Marks): Auto
    requires IsRequestLine(s, k)
  {
    var verb := MethodOf(s[..k.verbEnd]);
    var flags := PathFold(INITIAL.(state := AfterSlashInUrl, isStatic := verb != Post), s[k.path + 1..k.pathEnd]);
    Auto(Done, verb, flags.isStatic, flags.isComplex,
         if HasAuthority(k) then k.token else -1,
         if HasAuthority(k) then k.schemeEnd else -1,
         if HasAuthority(k) then k.schemeEnd + 3 else -1,
         if HasAuthority(k) then k.hostEnd else -1,
         if HasAuthority(k) && k.hostEnd < k.path then k.hostEnd + 1 else -1,
         if HasAuthority(k) && k.hostEnd < k.path then k.path else -1,
         k.path, k.pathEnd,
         Number(s, k.slash + 1, k.dot), Number(s, k.dot + 1, k.minorEnd))
  }

  // -------------------------------------------------- runs, stage by stage

  /** A stretch of characters that leave the automaton as it is. */
  lemma {:induction false} RunStay(a: Auto, s: string, i: nat, j: nat)
    requires i <= j <= |s| && a.state != Done
    requires forall k :: i <= k < j ==> Next(a, s, k) == Go(a)
    ensures Run(a, s, i) == Run(a, s, j)
    decreases j - i
  {
    hide Next;
    if i < j {
      RunStay(a, s, i + 1, j);
    }
  }

  /** The end of a stretch. */
  function Skip(p: char -> bool, s: string, i: nat): (j: nat)
    requires i <= |s|
    ensures i <= j <= |s| && All(p, s, i, j) && (j < |s| ==> !p(s[j]))
    decreases |s| - i
  {
    if i == |s| || !p(s[i]) then i else Skip(p, s, i + 1)
  }

  lemma RunStep(a: Auto, s: string, i: nat)
    requires i < |s| && a.state != Done
    ensures Next(a, s, i).Go? ==> Run(a, s, i) == Run(Next(a, s, i).a, s, i + 1)
    ensures Next(a, s, i).Reject? ==> Run(a, s, i) == Bad(Next(a, s, i).why, Next(a, s, i).a, i)
  {
    hide Next;
  }

  lemma StartStage(a: Auto, s: string, i: nat)
    requires a.state == Start && i < |s|
    ensures Run(a, s, i) ==
            if s[i] == '\r' || s[i] == '\n' then Bad(InvalidHttpRequest, a, i)
            else if !IsUpper(s[i]) then Bad(InvalidMethod, a, i)
            else Run(a.(state := InMethod), s, i + 1)
  {
    hide Run;
    RunStep(a, s, i);
  }

  /** The method and the space after it. */
  lemma MethodStage(a: Auto, s: string, i: nat, j: nat)
    requires a.state == InMethod && All(IsUpper, s, i, j)
    ensures Run(a, s, i) ==
            if j == |s| then Again(a)
            else if IsUpper(s[j]) then Run(a, s, j + 1)
            else if s[j] != ' ' then Bad(InvalidMethod, a, j)
            else if MethodOf(s[..j]) == NotSupport then Bad(InvalidMethod, a.(verb := NotSupport), j)
            else Run(a.(verb := MethodOf(s[..j]), isStatic := a.isStatic && MethodOf(s[..j]) != Post, state := SpacesBeforeUrl), s, j + 1)
  {
    hide MethodOf, Run;
    RunStay(a, s, i, j);
    if j < |s| {
      RunStep(a, s, j);
    } else {
      RunEnd(a, s);
    }
  }

  lemma RunEnd(a: Auto, s: string)
    requires a.state != Done
    ensures Run(a, s, |s|) == Again(a)
  {
  }

  /** Every other stage that loops: `p` are the characters it stays on. */
  lemma Stage(a: Auto, s: string, i: nat, j: nat, p: char -> bool)
    requires (a.state == SpacesBeforeUrl && p == IsBlank) || (a.state == Scheme && p == IsLetter)
             || (a.state == Host && p == IsHostChar) || (a.state == Port && p == IsDigit)
             || (a.state == H && p == IsBlank) || (a.state == HTTP && p == IsP)
    requires All(p, s, i, j)
    ensures Run(a, s, i) == Run(a, s, j)
  {
    hide Run;
    forall k | i <= k < j
      ensures Next(a, s, k) == Go(a)
    {
      assert p(s[k]);
    }
    RunStay(a, s, i, j);
  }

  lemma {:induction false} PathStage(a: Auto, s: string, i: nat, j: nat)
    requires a.state in {AfterSlashInUrl, CheckUrl, Url} && All(NotBlank, s, i, j)
    ensures Run(a, s, i) == Run(PathFold(a, s[i..j]), s, j)
    decreases j - i
  {
    hide Next, PathStep;
    if i < j {
      PathMove(a, s, i);
      RunStep(a, s, i);
      PathStage(PathStep(a, s[i]), s, i + 1, j);
      assert s[i..j][0] == s[i] && s[i..j][1..] == s[i + 1..j];
    } else {
      assert s[i..j] == "";
    }
  }

  lemma PathMove(a: Auto, s: string, i: nat)
    requires a.state in {AfterSlashInUrl, CheckUrl, Url} && i < |s|
    ensures s[i] != ' ' ==> Next(a, s, i) == Go(PathStep(a, s[i])) && PathStep(a, s[i]).state in {AfterSlashInUrl, CheckUrl, Url}
    ensures s[i] == ' ' ==> Next(a, s, i) == Go(a.(urlEnd := i, state := H))
  {
  }

  // --------------------------------------- lines of the grammar are accepted

  lemma DigitsPart(a: Auto, s: string, k: Marks)
    requires a.state == FirstMajorDigit && IsVersion(s, k)
    ensures Run(a, s, k.slash + 1) ==
            Ok(a.(state := Done, major := Number(s, k.slash + 1, k.dot), minor := Number(s, k.dot + 1, k.minorEnd)), k.end)
  {
    hide Run, Next;
    MajorPart(a, s, k);
    MinorPart(a.(major := Number(s, k.slash + 1, k.dot), state := FirstMinorDigit), s, k);
  }

  lemma MajorPart(a: Auto, s: string, k: Marks)
    requires a.state == FirstMajorDigit && IsVersion(s, k)
    ensures Run(a, s, k.slash + 1) == Run(a.(major := Number(s, k.slash + 1, k.dot), state := FirstMinorDigit), s, k.dot + 1)
  {
    hide Run, IsVersion, DigitOf;
    VersionDigits(s, k);
    var b := a.(major := DigitOf(s[k.slash + 1]), state := MajorDigit);
    RunStep(a, s, k.slash + 1);
    RunStep(b, s, k.slash + 2);
    if k.dot == k.slash + 3 {
      RunStep(b.(major := Number(s, k.slash + 1, k.dot), state := VersionDot), s, k.slash + 3);
    }
  }

  lemma VersionDigits(s: string, k: Marks)
    requires IsVersion(s, k)
    ensures k.slash + 2 <= k.dot <= k.slash + 3 && k.dot + 2 <= k.minorEnd <= k.dot + 3 && k.minorEnd < k.end <= |s|
    ensures IsDigit(s[k.slash + 1]) && (k.dot == k.slash + 3 ==> IsDigit(s[k.slash + 2]))
    ensures s[k.dot] == '.' && IsDigit(s[k.dot + 1])
    ensures k.minorEnd == k.dot + 3 ==> s[k.dot + 2] != '\r' && s[k.dot + 2] != '\n'
    ensures if s[k.minorEnd] == '\n' then k.end == k.minorEnd + 1
            else s[k.minorEnd] == '\r' && k.end == k.minorEnd + 2 && s[k.minorEnd + 1] == '\n'
  {
  }

  lemma MinorPart(c: Auto, s: string, k: Marks)
    requires c.state == FirstMinorDigit && IsVersion(s, k)
    ensures Run(c, s, k.dot + 1) == Ok(c.(state := Done, minor := Number(s, k.dot + 1, k.minorEnd)), k.end)
  {
    hide Run, IsVersion, DigitOf;
    VersionDigits(s, k);
    var d := c.(minor := DigitOf(s[k.dot + 1]), state := MinorDigit);
    RunStep(c, s, k.dot + 1);
    if k.minorEnd == k.dot + 3 {
      RunStep(d, s, k.dot + 2);
      d := c.(minor := Number(s, k.dot + 1, k.minorEnd), state := CrLfAfterMinor);
    }
    LineEndPart(d, s, k);
  }

  lemma LineEndPart(d: Auto, s: string, k: Marks)
    requires d.state in {MinorDigit, CrLfAfterMinor} && IsVersion(s, k)
    ensures Run(d, s, k.minorEnd) == Ok(d.(state := Done), k.end)
  {
    hide Run, IsVersion;
    VersionDigits(s, k);
    RunStep(d, s, k.minorEnd);
    if s[k.minorEnd] == '\r' {
      RunStep(d.(state := AlmostDone), s, k.minorEnd + 1);
    }
    RunDone(d.(state := Done), s, k.end);
  }

  lemma RunDone(a: Auto, s: string, i: nat)
    requires a.state == Done && i <= |s|
    ensures Run(a, s, i) == Ok(a, i)
  {
  }

  lemma VersionPart(a: Auto, s: string, k: Marks)
    requires a.state == H && IsVersion(s, k)
    ensures Run(a, s, k.pathEnd + 1) ==
            Ok(a.(state := Done, major := Number(s, k.slash + 1, k.dot), minor := Number(s, k.dot + 1, k.minorEnd)), k.end)
  {
    hide Run, Next;
    NamePart(a, s, k);
    DigitsPart(a.(state := FirstMajorDigit), s, k);
  }

  lemma NamePart(a: Auto, s: string, k: Marks)
    requires a.state == H && IsVersion(s, k)
    ensures Run(a, s, k.pathEnd + 1) == Run(a.(state := FirstMajorDigit), s, k.slash + 1)
  {
    hide Run, Next;
    Stage(a, s, k.pathEnd + 1, k.version, IsBlank);
    LettersStage(a, s, k.version);
    Stage(a.(state := HTTP), s, k.version + 3, k.slash, IsP);
    ProtocolSlash(a.(state := HTTP), s, k.slash);
  }

  lemma LettersStage(a: Auto, s: string, i: nat)
    requires a.state == H && i + 2 < |s| && s[i] == 'H' && s[i + 1] == 'T' && s[i + 2] == 'T'
    ensures Run(a, s, i) == Run(a.(state := HTTP), s, i + 3)
  {
    hide Run;
    RunStep(a, s, i);
    RunStep(a.(state := HT), s, i + 1);
    RunStep(a.(state := HTT), s, i + 2);
  }

  lemma ProtocolSlash(a: Auto, s: string, i: nat)
    requires a.state == HTTP && i < |s| && s[i] == '/'
    ensures Run(a, s, i) == Run(a.(state := FirstMajorDigit), s, i + 1)
  {
    hide Run;
    RunStep(a, s, i);
  }

  lemma AuthorityPart(a: Auto, s: string, k: Marks)
    requires a.state == SpacesBeforeUrl && IsUrlToken(s, k)
    ensures var port := HasAuthority(k) && k.hostEnd < k.path;
            Run(a, s, k.token) == Run(a.(
              state := AfterSlashInUrl, urlStart := k.path,
              schemeStart := if HasAuthority(k) then k.token else a.schemeStart,
              schemeEnd := if HasAuthority(k) then k.schemeEnd else a.schemeEnd,
              hostStart := if HasAuthority(k) then k.schemeEnd + 3 else a.hostStart,
              hostEnd := if HasAuthority(k) then k.hostEnd else a.hostEnd,
              portStart := if port then k.hostEnd + 1 else a.portStart,
              portEnd := if port then k.path else a.portEnd), s, k.path + 1)
  {
    hide Run;
    if !HasAuthority(k) {
      RunStep(a, s, k.path);
    } else {
      SchemePart(a, s, k);
      HostPart(a.(schemeStart := k.token, schemeEnd := k.schemeEnd, hostStart := k.schemeEnd + 3, state := Host), s, k);
    }
  }

  lemma SchemePart(a: Auto, s: string, k: Marks)
    requires a.state == SpacesBeforeUrl && IsUrlToken(s, k) && HasAuthority(k)
    ensures Run(a, s, k.token) ==
            Run(a.(schemeStart := k.token, schemeEnd := k.schemeEnd, hostStart := k.schemeEnd + 3, state := Host), s, k.schemeEnd + 3)
  {
    hide Run, Next;
    var b := a.(schemeStart := k.token, state := Scheme);
    SchemeStarts(a, s, k.token);
    Stage(b, s, k.token + 1, k.schemeEnd, IsLetter);
    SchemeEnds(b, s, k.schemeEnd);
  }

  lemma SchemeStarts(a: Auto, s: string, i: nat)
    requires a.state == SpacesBeforeUrl && i < |s| && IsLetter(s[i])
    ensures Run(a, s, i) == Run(a.(schemeStart := i, state := Scheme), s, i + 1)
  {
    hide Run;
    RunStep(a, s, i);
  }

  lemma SchemeEnds(b: Auto, s: string, i: nat)
    requires b.state == Scheme && i + 2 < |s| && s[i] == ':' && s[i + 1] == '/' && s[i + 2] == '/'
    ensures Run(b, s, i) == Run(b.(schemeEnd := i, hostStart := i + 3, state := Host), s, i + 3)
  {
    hide Run;
    RunStep(b, s, i);
    var c := b.(schemeEnd := i, state := SchemeSlash);
    RunStep(c, s, i + 1);
    RunStep(c.(state := SchemeDoubleSlash), s, i + 2);
  }

  lemma HostPart(b: Auto, s: string, k: Marks)
    requires b.state == Host && IsUrlToken(s, k) && HasAuthority(k)
    ensures Run(b, s, k.schemeEnd + 3) ==
            Run(b.(state := AfterSlashInUrl, urlStart := k.path, hostEnd := k.hostEnd,
                   portStart := if k.hostEnd < k.path then k.hostEnd + 1 else b.portStart,
                   portEnd := if k.hostEnd < k.path then k.path else b.portEnd), s, k.path + 1)
  {
    hide Run;
    Stage(b, s, k.schemeEnd + 3, k.hostEnd, IsHostChar);
    RunStep(b, s, k.hostEnd);
    if k.hostEnd < k.path {
      var c := b.(hostEnd := k.hostEnd, portStart := k.hostEnd + 1, state := Port);
      Stage(c, s, k.hostEnd + 1, k.path, IsDigit);
      RunStep(c, s, k.path);
    }
  }

  /** The flags a path leaves depend on nothing but the path and the flags before it. */
  lemma {:induction false} PathFoldFlags(a: Auto, b: Auto, w: string)
    requires a.state in {AfterSlashInUrl, CheckUrl, Url} && b.state == a.state
    requires a.isStatic == b.isStatic && a.isComplex == b.isComplex
    ensures PathFold(a, w).isStatic == PathFold(b, w).isStatic && PathFold(a, w).isComplex == PathFold(b, w).isComplex
    decreases |w|
  {
    if w != "" {
      PathFoldFlags(PathStep(a, w[0]), PathStep(b, w[0]), w[1..]);
    }
  }

  lemma UpperMethod(v: string)
    requires MethodOf(v) != NotSupport
    ensures v != "" && forall i :: 0 <= i < |v| ==> IsUpper(v[i])
    ensures ' ' !in v
  {
  }

  /** Every line of the grammar is accepted, wherever it is followed by other bytes, and the
      offsets delimit its parts. */
  lemma AcceptsGrammar(s: string, k: Marks)
    requires IsRequestLine(s, k)
    ensures Run(INITIAL, s, 0) == Ok(Recorded(s, k), k.end)
  {
    hide Run, Next, MethodOf, PathFold, IsVersion, IsUrlToken, Number;
    TokenEnds(s, k);
    NumbersDefined(s, k);
    var verb := MethodOf(s[..k.verbEnd]);
    var b := INITIAL.(verb := verb, isStatic := verb != Post, state := SpacesBeforeUrl);
    MethodPart(s, k);
    AfterMethod(b, s, k);
    PathFoldFlags(INITIAL.(state := AfterSlashInUrl, isStatic := verb != Post), b.(state := AfterSlashInUrl), s[k.path + 1..k.pathEnd]);
  }

  lemma MethodPart(s: string, k: Marks)
    requires IsMethod(s, k)
    ensures var verb := MethodOf(s[..k.verbEnd]);
            Run(INITIAL, s, 0) == Run(INITIAL.(verb := verb, isStatic := verb != Post, state := SpacesBeforeUrl), s, k.verbEnd + 1)
  {
    hide Run, Next, MethodOf;
    MethodUpper(s, k);
    StartStage(INITIAL, s, 0);
    MethodStage(INITIAL.(state := InMethod), s, 1, k.verbEnd);
  }

  lemma MethodUpper(s: string, k: Marks)
    requires IsMethod(s, k)
    ensures 0 < k.verbEnd < |s| && s[k.verbEnd] == ' ' && All(IsUpper, s, 0, k.verbEnd)
  {
    hide MethodOf;
    UpperMethod(s[..k.verbEnd]);
    assert IsBlank(s[k.verbEnd]);
    assert forall i :: 0 <= i < k.verbEnd ==> s[..k.verbEnd][i] == s[i];
  }

  lemma TokenEnds(s: string, k: Marks)
    requires IsUrlToken(s, k)
    ensures k.token <= k.path < k.pathEnd < |s| && s[k.pathEnd] == ' '
  {
  }

  /** The rest of an accepted line, from any state in which the blanks after the method are read. */
  lemma AfterMethod(b: Auto, s: string, k: Marks)
    requires b.state == SpacesBeforeUrl && IsRequestLine(s, k)
    ensures var flags := PathFold(b.(state := AfterSlashInUrl), s[k.path + 1..k.pathEnd]);
            var port := HasAuthority(k) && k.hostEnd < k.path;
            Run(b, s, k.verbEnd + 1) == Ok(b.(
              state := Done, isStatic := flags.isStatic, isComplex := flags.isComplex,
              urlStart := k.path, urlEnd := k.pathEnd,
              schemeStart := if HasAuthority(k) then k.token else b.schemeStart,
              schemeEnd := if HasAuthority(k) then k.schemeEnd else b.schemeEnd,
              hostStart := if HasAuthority(k) then k.schemeEnd + 3 else b.hostStart,
              hostEnd := if HasAuthority(k) then k.hostEnd else b.hostEnd,
              portStart := if port then k.hostEnd + 1 else b.portStart,
              portEnd := if port then k.path else b.portEnd,
              major := Number(s, k.slash + 1, k.dot), minor := Number(s, k.dot + 1, k.minorEnd)), k.end)
  {
    hide Run, Next, MethodOf, PathFold, IsVersion, IsUrlToken, Number;
    TokenEnds(s, k);
    NumbersDefined(s, k);
    Stage(b, s, k.verbEnd + 1, k.token, IsBlank);
    AuthorityPart(b, s, k);
    var port := HasAuthority(k) && k.hostEnd < k.path;
    var c := b.(
      state := AfterSlashInUrl, urlStart := k.path,
      schemeStart := if HasAuthority(k) then k.token else b.schemeStart,
      schemeEnd := if HasAuthority(k) then k.schemeEnd else b.schemeEnd,
      hostStart := if HasAuthority(k) then k.schemeEnd + 3 else b.hostStart,
      hostEnd := if HasAuthority(k) then k.hostEnd else b.hostEnd,
      portStart := if port then k.hostEnd + 1 else b.portStart,
      portEnd := if port then k.path else b.portEnd);
    PathPart(c, s, k);
    PathFoldFlags(b.(state := AfterSlashInUrl), c, s[k.path + 1..k.pathEnd]);
  }

  /** The rest of an accepted line behind the first '/' of its path. */
  lemma PathPart(c: Auto, s: string, k: Marks)
    requires c.state == AfterSlashInUrl && IsUrlToken(s, k) && IsVersion(s, k)
    ensures Run(c, s, k.path + 1) ==
            Ok(PathFold(c, s[k.path + 1..k.pathEnd]).(
               state := Done, urlEnd := k.pathEnd, major := Number(s, k.slash + 1, k.dot), minor := Number(s, k.dot + 1, k.minorEnd)), k.end)
  {
    hide Run, Next, PathFold, IsVersion;
    NumbersDefined(s, k);
    PathStage(c, s, k.path + 1, k.pathEnd);
    var d := PathFold(c, s[k.path + 1..k.pathEnd]);
    RunStep(d, s, k.pathEnd);
    PathMove(d, s, k.pathEnd);
    VersionPart(d.(urlEnd := k.pathEnd, state := H), s, k);
  }

  lemma NumbersDefined(s: string, k: Marks)
    requires IsVersion(s, k)
    ensures k.slash + 1 < k.dot <= |s| && k.dot <= k.slash + 3 && k.dot + 1 < k.minorEnd <= |s| && k.minorEnd <= k.dot + 3
  {
  }

  // ------------------------------------- only lines of the grammar are accepted

  lemma OkStep(a: Auto, s: string, i: nat)
    requires i <= |s| && a.state != Done && Run(a, s, i).Ok?
    ensures i < |s| && Next(a, s, i).Go? && Run(Next(a, s, i).a, s, i + 1) == Run(a, s, i)
  {
    hide Next;
  }

  lemma LineEndInv(a: Auto, s: string, i: nat) returns (end: nat)
    requires a.state in {MinorDigit, CrLfAfterMinor} && i <= |s| && Run(a, s, i).Ok?
    requires a.state == MinorDigit ==> i < |s| && s[i] in {'\r', '\n'}
    ensures i < end <= |s|
    ensures if s[i] == '\n' then end == i + 1 else s[i] == '\r' && end == i + 2 && s[i + 1] == '\n'
  {
    hide Run;
    OkStep(a, s, i);
    end := i + 1;
    if s[i] == '\r' {
      OkStep(a.(state := AlmostDone), s, i + 1);
      end := i + 2;
    }
  }

  lemma MinorInv(a: Auto, s: string, i: nat) returns (minorEnd: nat, end: nat)
    requires a.state == FirstMinorDigit && i <= |s| && Run(a, s, i).Ok?
    ensures i < minorEnd <= i + 2 && minorEnd < end <= |s| && IsDigit(s[i])
    ensures minorEnd == i + 2 ==> s[i + 1] != '\r' && s[i + 1] != '\n'
    ensures if s[minorEnd] == '\n' then end == minorEnd + 1
            else s[minorEnd] == '\r' && end == minorEnd + 2 && s[minorEnd + 1] == '\n'
  {
    hide Run, DigitOf;
    OkStep(a, s, i);
    var b := a.(minor := DigitOf(s[i]), state := MinorDigit);
    OkStep(b, s, i + 1);
    minorEnd := i + 1;
    if s[i + 1] != '\r' && s[i + 1] != '\n' {
      minorEnd := i + 2;
      b := b.(minor := b.minor * 10 + DigitOf(s[i + 1]), state := CrLfAfterMinor);
    }
    end := LineEndInv(b, s, minorEnd);
  }

  lemma MajorInv(a: Auto, s: string, i: nat) returns (dot: nat, b: Auto)
    requires a.state == FirstMajorDigit && i <= |s| && Run(a, s, i).Ok?
    ensures i < dot <= i + 2 && dot < |s| && All(IsDigit, s, i, dot) && s[dot] == '.'
    ensures b.state == FirstMinorDigit && Run(b, s, dot + 1) == Run(a, s, i)
  {
    hide Run, DigitOf;
    OkStep(a, s, i);
    b := a.(major := DigitOf(s[i]), state := MajorDigit);
    OkStep(b, s, i + 1);
    dot := i + 1;
    if s[i + 1] != '.' {
      dot := i + 2;
      b := b.(major := b.major * 10 + DigitOf(s[i + 1]), state := VersionDot);
      OkStep(b, s, i + 2);
    }
    b := b.(state := FirstMinorDigit);
  }

  lemma LettersInv(a: Auto, s: string, i: nat)
    requires a.state == H && i <= |s| && Run(a, s, i).Ok? && (i < |s| ==> s[i] != ' ')
    ensures i + 3 <= |s| && s[i] == 'H' && s[i + 1] == 'T' && s[i + 2] == 'T'
    ensures Run(a.(state := HTTP), s, i + 3) == Run(a, s, i)
  {
    hide Run;
    OkStep(a, s, i);
    OkStep(a.(state := HT), s, i + 1);
    OkStep(a.(state := HTT), s, i + 2);
  }

  lemma ProtocolSlashInv(a: Auto, s: string, i: nat)
    requires a.state == HTTP && i <= |s| && Run(a, s, i).Ok? && (i < |s| ==> s[i] != 'P')
    ensures i < |s| && s[i] == '/' && Run(a.(state := FirstMajorDigit), s, i + 1) == Run(a, s, i)
  {
    hide Run;
    OkStep(a, s, i);
  }

  lemma VersionInv(a: Auto, s: string, k: Marks) returns (v: Marks)
    requires a.state == H && k.pathEnd < |s| && s[k.pathEnd] == ' ' && Run(a, s, k.pathEnd + 1).Ok?
    ensures v == k.(version := v.version, slash := v.slash, dot := v.dot, minorEnd := v.minorEnd, end := v.end)
    ensures IsVersion(s, v)
  {
    hide Run, Next;
    var h := Skip(IsBlank, s, k.pathEnd + 1);
    Stage(a, s, k.pathEnd + 1, h, IsBlank);
    LettersInv(a, s, h);
    var p := a.(state := HTTP);
    var slash := Skip(IsP, s, h + 3);
    Stage(p, s, h + 3, slash, IsP);
    ProtocolSlashInv(p, s, slash);
    var dot, b := MajorInv(a.(state := FirstMajorDigit), s, slash + 1);
    var minorEnd, end := MinorInv(b, s, dot + 1);
    v := k.(version := h, slash := slash, dot := dot, minorEnd := minorEnd, end := end);
  }

  lemma HostInv(a: Auto, s: string, i: nat) returns (hostEnd: nat, path: nat, b: Auto)
    requires a.state == Host && i <= |s| && Run(a, s, i).Ok?
    ensures i <= hostEnd <= path < |s| && All(IsHostChar, s, i, hostEnd) && s[path] == '/'
    ensures hostEnd < path ==> s[hostEnd] == ':' && All(IsDigit, s, hostEnd + 1, path)
    ensures b.state == AfterSlashInUrl && Run(b, s, path + 1) == Run(a, s, i)
  {
    hide Run;
    hostEnd := Skip(IsHostChar, s, i);
    Stage(a, s, i, hostEnd, IsHostChar);
    OkStep(a, s, hostEnd);
    if s[hostEnd] == '/' {
      path := hostEnd;
      b := a.(hostEnd := hostEnd, urlStart := hostEnd, state := AfterSlashInUrl);
    } else {
      var c := a.(hostEnd := hostEnd, portStart := hostEnd + 1, state := Port);
      path := Skip(IsDigit, s, hostEnd + 1);
      Stage(c, s, hostEnd + 1, path, IsDigit);
      OkStep(c, s, path);
      b := c.(portEnd := path, urlStart := path, state := AfterSlashInUrl);
    }
  }

  lemma SchemeInv(a: Auto, s: string, i: nat) returns (schemeEnd: nat, b: Auto)
    requires a.state == Scheme && i <= |s| && Run(a, s, i).Ok?
    ensures i <= schemeEnd && schemeEnd + 3 <= |s| && All(IsLetter, s, i, schemeEnd)
    ensures s[schemeEnd] == ':' && s[schemeEnd + 1] == '/' && s[schemeEnd + 2] == '/'
    ensures b.state == Host && Run(b, s, schemeEnd + 3) == Run(a, s, i)
  {
    hide Run;
    schemeEnd := Skip(IsLetter, s, i);
    Stage(a, s, i, schemeEnd, IsLetter);
    OkStep(a, s, schemeEnd);
    b := a.(schemeEnd := schemeEnd, state := SchemeSlash);
    OkStep(b, s, schemeEnd + 1);
    b := b.(state := SchemeDoubleSlash);
    OkStep(b, s, schemeEnd + 2);
    b := b.(hostStart := schemeEnd + 3, state := Host);
  }

  lemma UrlInv(a: Auto, s: string, k: Marks) returns (v: Marks, b: Auto)
    requires a.state == SpacesBeforeUrl && k.token <= |s| && Run(a, s, k.token).Ok?
    requires k.token < |s| ==> s[k.token] != ' '
    ensures v == k.(schemeEnd := v.schemeEnd, hostEnd := v.hostEnd, path := v.path, pathEnd := v.pathEnd)
    ensures IsUrlToken(s, v) && b.state == H && Run(b, s, v.pathEnd + 1) == Run(a, s, k.token)
  {
    hide Run, Next, PathFold;
    var c: Auto;
    v, c := BeforePathInv(a, s, k);
    var pathEnd: nat;
    pathEnd, b := PathInv(c, s, v.path);
    v := v.(pathEnd := pathEnd);
  }

  lemma PathInv(c: Auto, s: string, path: nat) returns (pathEnd: nat, b: Auto)
    requires c.state == AfterSlashInUrl && path < |s| && s[path] == '/' && Run(c, s, path + 1).Ok?
    ensures path < pathEnd < |s| && All(NotBlank, s, path, pathEnd) && s[pathEnd] == ' '
    ensures b.state == H && Run(b, s, pathEnd + 1) == Run(c, s, path + 1)
  {
    hide Run, Next, PathFold;
    pathEnd := Skip(NotBlank, s, path + 1);
    PathStage(c, s, path + 1, pathEnd);
    var d := PathFold(c, s[path + 1..pathEnd]);
    OkStep(d, s, pathEnd);
    PathMove(d, s, pathEnd);
    b := d.(urlEnd := pathEnd, state := H);
  }

  lemma BeforePathInv(a: Auto, s: string, k: Marks) returns (v: Marks, b: Auto)
    requires a.state == SpacesBeforeUrl && k.token <= |s| && Run(a, s, k.token).Ok?
    requires k.token < |s| ==> s[k.token] != ' '
    ensures v == k.(schemeEnd := v.schemeEnd, hostEnd := v.hostEnd, path := v.path)
    ensures v.token <= v.path < |s| && s[v.path] == '/' && (HasAuthority(v) ==> IsAuthority(s, v))
    ensures b.state == AfterSlashInUrl && Run(b, s, v.path + 1) == Run(a, s, k.token)
  {
    hide Run;
    OkStep(a, s, k.token);
    if s[k.token] == '/' {
      v := k.(path := k.token);
      b := a.(urlStart := k.token, state := AfterSlashInUrl);
    } else {
      var schemeEnd, c := SchemeInv(a.(schemeStart := k.token, state := Scheme), s, k.token + 1);
      var hostEnd, path, d := HostInv(c, s, schemeEnd + 3);
      v := k.(schemeEnd := schemeEnd, hostEnd := hostEnd, path := path);
      b := d;
      assert All(IsLetter, s, k.token, schemeEnd);
    }
  }

  /** An accepted line belongs to the grammar. */
  lemma AcceptedInGrammar(s: string) returns (k: Marks)
    requires Run(INITIAL, s, 0).Ok?
    ensures IsRequestLine(s, k)
  {
    hide Run, Next, MethodOf, IsUrlToken, IsVersion;
    var verbEnd, b := MethodInv(s);
    var token := Skip(IsBlank, s, verbEnd + 1);
    Stage(b, s, verbEnd + 1, token, IsBlank);
    k := Marks(verbEnd, token, 0, 0, 0, 0, 0, 0, 0, 0, 0);
    var c: Auto;
    k, c := UrlInv(b, s, k);
    TokenEnds(s, k);
    var v := VersionInv(c, s, k);
    SameToken(s, k, v);
    k := v;
  }

  lemma MethodInv(s: string) returns (verbEnd: nat, b: Auto)
    requires Run(INITIAL, s, 0).Ok?
    ensures 0 < verbEnd < |s| && s[verbEnd] == ' ' && MethodOf(s[..verbEnd]) != NotSupport
    ensures b.state == SpacesBeforeUrl && Run(b, s, verbEnd + 1) == Run(INITIAL, s, 0)
  {
    hide Run, Next, MethodOf;
    OkStep(INITIAL, s, 0);
    StartStage(INITIAL, s, 0);
    var a := INITIAL.(state := InMethod);
    verbEnd := Skip(IsUpper, s, 1);
    MethodStage(a, s, 1, verbEnd);
    b := a.(verb := MethodOf(s[..verbEnd]), isStatic := MethodOf(s[..verbEnd]) != Post, state := SpacesBeforeUrl);
  }

  lemma SameToken(s: string, k: Marks, v: Marks)
    requires IsUrlToken(s, k)
    requires v == k.(version := v.version, slash := v.slash, dot := v.dot, minorEnd := v.minorEnd, end := v.end)
    ensures IsUrlToken(s, v)
  {
  }

  ghost predicate OffsetsDelimit(s: string, k: Marks, a: Auto)
  {
    && a.urlStart == k.path && a.urlEnd == k.pathEnd
    && 0 < k.verbEnd < a.urlStart < a.urlEnd < k.end <= |s|
    && (a.schemeStart >= 0 ==> k.verbEnd < a.schemeStart < a.schemeEnd < a.hostStart <= a.hostEnd <= a.urlStart)
    && (a.portStart >= 0 ==> a.hostEnd < a.portStart <= a.portEnd == a.urlStart)
  }

  lemma MarksOrdered(s: string, k: Marks)
    requires IsRequestLine(s, k)
    ensures OffsetsDelimit(s, k, Recorded(s, k))
  {
    hide PathFold, MethodOf, Number;
    UpperMethod(s[..k.verbEnd]);
  }

  /** The automaton accepts exactly the lines of the grammar, and then the recorded offsets
      delimit the parts: in bounds, in order, and the URL is s[urlStart..urlEnd]. */
  lemma AcceptsExactly(s: string)
    ensures Run(INITIAL, s, 0).Ok? <==> exists k :: IsRequestLine(s, k)
    ensures forall k :: IsRequestLine(s, k) ==>
              Run(INITIAL, s, 0) == Ok(Recorded(s, k), k.end) && OffsetsDelimit(s, k, Recorded(s, k))
  {
    hide Run, IsRequestLine, OffsetsDelimit, Recorded;
    if Run(INITIAL, s, 0).Ok? {
      var k := AcceptedInGrammar(s);
    }
    forall k | IsRequestLine(s, k)
      ensures Run(INITIAL, s, 0) == Ok(Recorded(s, k), k.end) && OffsetsDelimit(s, k, Recorded(s, k))
    {
      AcceptsGrammar(s, k);
      MarksOrdered(s, k);
    }
  }

  // ----------------------------------------------- one place for the parts

  lemma AllAt(p: char -> bool, s: string, i: nat, j: nat, k: nat)
    requires All(p, s, i, j) && k < |s|
    ensures i <= k < j ==> p(s[k])
  {
  }

  lemma VersionUnique(s: string, j: Marks, k: Marks)
    requires IsVersion(s, j) && IsVersion(s, k) && j.pathEnd == k.pathEnd
    ensures j.version == k.version && j.slash == k.slash && j.dot == k.dot && j.minorEnd == k.minorEnd && j.end == k.end
  {
    AllAt(IsBlank, s, j.pathEnd, j.version, k.version);
    AllAt(IsBlank, s, k.pathEnd, k.version, j.version);
    AllAt(IsP, s, j.version + 3, j.slash, k.slash);
    AllAt(IsP, s, k.version + 3, k.slash, j.slash);
    AllAt(IsDigit, s, j.slash + 1, j.dot, k.dot);
    AllAt(IsDigit, s, k.slash + 1, k.dot, j.dot);
  }

  /** A line has its parts in one place only; without an authority its marks mean nothing. */
  lemma MarksUnique(s: string, j: Marks, k: Marks)
    requires IsRequestLine(s, j) && IsRequestLine(s, k)
    ensures j == k.(schemeEnd := j.schemeEnd, hostEnd := j.hostEnd)
    ensures HasAuthority(k) ==> j == k
  {
    hide Run, IsUrlToken, IsVersion, PathFold, MethodOf, Number;
    AcceptsGrammar(s, j);
    AcceptsGrammar(s, k);
    VersionUnique(s, j, k);
    MethodMarksUnique(s, j, k);
  }

  lemma MethodMarksUnique(s: string, j: Marks, k: Marks)
    requires IsMethod(s, j) && IsMethod(s, k) && IsUrlToken(s, j) && IsUrlToken(s, k)
    ensures j.verbEnd == k.verbEnd && j.token == k.token
  {
    hide MethodOf;
    MethodUpper(s, j);
    MethodUpper(s, k);
    AllAt(IsUpper, s, 0, j.verbEnd, k.verbEnd);
    AllAt(IsUpper, s, 0, k.verbEnd, j.verbEnd);
    TokenNotBlank(s, j);
    TokenNotBlank(s, k);
    AllAt(IsBlank, s, j.verbEnd, j.token, k.token);
    AllAt(IsBlank, s, k.verbEnd, k.token, j.token);
  }

  lemma TokenNotBlank(s: string, k: Marks)
    requires IsUrlToken(s, k)
    ensures s[k.token] != ' '
  {
    assert HasAuthority(k) ==> IsLetter(s[k.token]);
  }

  // ---------------------------------------------- a line in several reads

  /** The state is not saved when the bytes run out: the next call starts over in kStart. */
  function Restarted(a: Auto): Auto
  {
    a.(state := Start)
  }

  lemma {:induction false} RunPrefix(a: Auto, s: string, i: nat, m: nat, n: nat)
    requires i <= m < n && i <= |s| && Run(a, s, i).Ok? && Run(a, s, i).pos == n
    ensures m <= |s| && Run(a, s[..m], i).Again?
    decreases m - i
  {
    hide Next, MethodOf;
    if a.state != Done && i < m {
      OkStep(a, s, i);
      OkBounds(Next(a, s, i).a, s, i + 1);
      SameNext(a, s, i, m);
      RunPrefix(Next(a, s, i).a, s, i + 1, m, n);
    }
  }

  lemma {:induction false} OkBounds(a: Auto, s: string, i: nat)
    requires i <= |s| && Run(a, s, i).Ok?
    ensures i <= Run(a, s, i).pos <= |s|
    decreases |s| - i
  {
    hide Next;
    if a.state != Done {
      OkStep(a, s, i);
      OkBounds(Next(a, s, i).a, s, i + 1);
    }
  }

  lemma SameNext(a: Auto, s: string, i: nat, m: nat)
    requires i < m <= |s| && a.state != Done
    ensures Next(a, s[..m], i) == Next(a, s, i)
  {
    assert s[..m][..i] == s[..i];
  }

  lemma NoMethodHasBlank(v: string, i: nat)
    requires i < |v| && v[i] == ' '
    ensures MethodOf(v) == NotSupport
  {
  }

  /** Once the line is accepted, what is behind it has not been looked at. */
  lemma {:induction false} RunShort(a: Auto, s: string, i: nat, m: nat)
    requires i <= |s| && Run(a, s, i).Ok? && Run(a, s, i).pos <= m <= |s|
    ensures i <= m && Run(a, s[..m], i) == Run(a, s, i)
    decreases |s| - i
  {
    hide Next, MethodOf;
    OkBounds(a, s, i);
    if a.state != Done {
      OkStep(a, s, i);
      OkBounds(Next(a, s, i).a, s, i + 1);
      SameNext(a, s, i, m);
      RunShort(Next(a, s, i).a, s, i + 1, m);
    }
  }

  /** ParseRequestLine called again after each further piece, as long as it answers kAgain. */
  function LineReads(o: Outcome, s: string, pieces: seq<string>): Outcome
    decreases |pieces|
  {
    if pieces == [] || !o.Again? then o
    else LineReads(Run(Restarted(o.a), s + pieces[0], |s|), s + pieces[0], pieces[1..])
  }

  /** Started over behind the method, a call meets a space it cannot account for. */
  lemma StartedLate(c: Auto, s: string, n: nat, v: nat)
    requires c.state == Start && v <= n <= |s| && (v < |s| ==> s[v] == ' ')
    ensures !Run(c, s, n).Ok?
  {
    hide Run, Next, MethodOf;
    if n == |s| {
      RunEnd(c, s);
    } else {
      StartStage(c, s, n);
      if IsUpper(s[n]) {
        var d := c.(state := InMethod);
        var j := Skip(IsUpper, s, n + 1);
        MethodStage(d, s, n + 1, j);
        if j < |s| {
          NoMethodHasBlank(s[..j], v);
        }
      }
    }
  }

  lemma {:induction false} NeverOk(o: Outcome, s: string, pieces: seq<string>, v: nat)
    requires v <= |s| && !o.Ok? && (v < |s + Flatten(pieces)| ==> (s + Flatten(pieces))[v] == ' ')
    ensures !LineReads(o, s, pieces).Ok?
    decreases |pieces|
  {
    hide Run;
    if pieces != [] && o.Again? {
      var t := s + pieces[0];
      assert s + Flatten(pieces) == t + Flatten(pieces[1..]);
      assert v < |t| ==> t[v] == (s + Flatten(pieces))[v];
      StartedLate(Restarted(o.a), t, |s|, v);
      NeverOk(Run(Restarted(o.a), t, |s|), t, pieces[1..], v);
    }
  }

  /** Started over inside the method, a call goes on as if it had begun with the line. */
  lemma StartedInMethod(s: string, n: nat, verbEnd: nat)
    requires n < verbEnd && n <= |s| && forall i :: 0 <= i < verbEnd && i < |s| ==> IsUpper(s[i])
    ensures n < |s| ==> Run(INITIAL, s, n) == Run(INITIAL, s, 0)
    ensures |s| < verbEnd ==> Run(INITIAL, s, n).Again? && Restarted(Run(INITIAL, s, n).a) == INITIAL
  {
    hide Run, Next, MethodOf;
    RunEnd(INITIAL, s);
    if n < |s| {
      var a := INITIAL.(state := InMethod);
      assert IsUpper(s[0]) && IsUpper(s[n]);
      StartStage(INITIAL, s, 0);
      StartStage(INITIAL, s, n);
      MethodRuns(a, s, 1, n + 1);
      if |s| < verbEnd {
        MethodStage(a, s, n + 1, |s|);
      }
    }
  }

  lemma {:induction false} MethodRuns(a: Auto, s: string, i: nat, j: nat)
    requires a.state == InMethod && i <= j <= |s| && forall k :: i <= k < j ==> IsUpper(s[k])
    ensures Run(a, s, i) == Run(a, s, j)
    decreases j - i
  {
    hide Run, Next, MethodOf;
    if i < j {
      MethodStage(a, s, i, i);
      MethodRuns(a, s, i + 1, j);
    }
  }

  /** Where a piece ends, the first of the remaining ones at `n`. */
  predicate CutsFit(n: nat, pieces: seq<string>, k: Marks)
    decreases |pieces|
  {
    pieces == [] || ((n + |pieces[0]| < k.verbEnd || k.end <= n + |pieces[0]|) && CutsFit(n + |pieces[0]|, pieces[1..], k))
  }

  lemma {:induction false} BehindTheLine(n: nat, pieces: seq<string>, k: Marks)
    requires k.end <= n
    ensures CutsFit(n, pieces, k)
    decreases |pieces|
  {
    if pieces != [] {
      BehindTheLine(n + |pieces[0]|, pieces[1..], k);
    }
  }

  lemma {:induction false} ReadsFrom(o: Outcome, s: string, pieces: seq<string>, k: Marks)
    requires IsRequestLine(s + Flatten(pieces), k) && |s| < k.verbEnd && o.Again? && Restarted(o.a) == INITIAL
    ensures LineReads(o, s, pieces).Ok? <==> CutsFit(|s|, pieces, k)
    ensures CutsFit(|s|, pieces, k) ==> LineReads(o, s, pieces) == Run(INITIAL, s + Flatten(pieces), 0)
    decreases |pieces|
  {
    hide Run, IsUrlToken, IsVersion, MethodOf, Number;
    var all := s + Flatten(pieces);
    AcceptsGrammar(all, k);
    LineEnds(all, k);
    if pieces != [] {
      var t := s + pieces[0];
      var m := |t|;
      assert all == t + Flatten(pieces[1..]) && all[..m] == t;
      var next := Run(INITIAL, t, |s|);
      StartedInMethod(t, |s|, k.verbEnd);
      if m < k.verbEnd {
        ReadsFrom(next, t, pieces[1..], k);
      } else if k.end <= m {
        RunShort(INITIAL, all, 0, m);
        BehindTheLine(m, pieces[1..], k);
      } else {
        RunPrefix(INITIAL, all, 0, m, k.end);
        NeverOk(next, t, pieces[1..], k.verbEnd);
      }
    }
  }

  lemma LineEnds(s: string, k: Marks)
    requires IsRequestLine(s, k)
    ensures 0 < k.verbEnd < k.end <= |s| && s[k.verbEnd] == ' ' && forall i :: 0 <= i < k.verbEnd ==> IsUpper(s[i])
  {
    hide MethodOf;
    MethodUpper(s, k);
  }

  /** A line delivered in any number of reads, with anything behind it: it is accepted, and then as
      in one read, if and only if every read that does not complete it ends inside the method. The
      state is not kept when the bytes run out, so the next call starts over. */
  lemma ManyReads(pieces: seq<string>, k: Marks)
    requires pieces != [] && IsRequestLine(Flatten(pieces), k)
    ensures LineReads(Run(INITIAL, pieces[0], 0), pieces[0], pieces[1..]).Ok? <==> CutsFit(0, pieces, k)
    ensures CutsFit(0, pieces, k) ==>
              LineReads(Run(INITIAL, pieces[0], 0), pieces[0], pieces[1..]) == Run(INITIAL, Flatten(pieces), 0)
  {
    hide Run, IsRequestLine, CutsFit, Flatten;
    var o := Again(INITIAL);
    assert "" + Flatten(pieces) == Flatten(pieces) && "" + pieces[0] == pieces[0];
    LineEnds(Flatten(pieces), k);
    ReadsFrom(o, "", pieces, k);
    assert LineReads(o, "", pieces) == LineReads(Run(INITIAL, pieces[0], 0), pieces[0], pieces[1..]);
  }

  lemma {:induction false} Positions(a: Auto, s: string, i: nat)
    requires i <= |s|
    ensures Run(a, s, i).Ok? || Run(a, s, i).Bad? ==> i <= Run(a, s, i).pos <= |s|
    ensures Run(a, s, i).Bad? ==> Run(a, s, i).pos < |s|
    decreases |s| - i
  {
    hide Next;
    if a.state != Done && i < |s| {
      RunStep(a, s, i);
      if Next(a, s, i).Go? {
        Positions(Next(a, s, i).a, s, i + 1);
      }
    }
  }

  /** A call that begins inside what may still be the method: it accepts as one that begins with the
      line, and otherwise it has met a space, or a character that begins nothing, or only letters. */
  lemma RestartInMethod(s: string, n: nat)
    requires n <= |s| && All(IsUpper, s, 0, n)
    ensures var o := Run(INITIAL, s, n);
            && (o.Ok? ==> o == Run(INITIAL, s, 0))
            && (o.Again? ==> (Restarted(o.a) == INITIAL && All(IsUpper, s, 0, |s|)) || ' ' in s)
            && (o.Bad? ==> n <= o.pos < |s| && (!IsUpper(s[o.pos]) || ' ' in s[..o.pos]))
  {
    hide Run, Next, MethodOf;
    if n == |s| {
      RunEnd(INITIAL, s);
    } else {
      StartStage(INITIAL, s, n);
      if IsUpper(s[n]) {
        InMethodFrom(s, n);
      }
    }
  }

  lemma InMethodFrom(s: string, n: nat)
    requires n < |s| && All(IsUpper, s, 0, n) && IsUpper(s[n])
    ensures var o := Run(INITIAL, s, n);
            && (o.Ok? ==> o == Run(INITIAL, s, 0))
            && (o.Again? ==> (Restarted(o.a) == INITIAL && All(IsUpper, s, 0, |s|)) || ' ' in s)
            && (o.Bad? ==> n <= o.pos < |s| && (!IsUpper(s[o.pos]) || ' ' in s[..o.pos]))
  {
    hide Run, Next, MethodOf;
    var a := INITIAL.(state := InMethod);
    var j := Skip(IsUpper, s, n + 1);
    assert All(IsUpper, s, 0, j) by {
      assert forall k :: 0 <= k < j ==> IsUpper(s[k]);
    }
    StartStage(INITIAL, s, n);
    MethodStage(a, s, n + 1, j);
    StartedInMethod(s, n, j);
    if j < |s| && s[j] == ' ' && MethodOf(s[..j]) != NotSupport {
      var b := a.(verb := MethodOf(s[..j]), isStatic := a.isStatic && MethodOf(s[..j]) != Post, state := SpacesBeforeUrl);
      Positions(b, s, j + 1);
      assert Run(b, s, j + 1).Bad? ==> s[..Run(b, s, j + 1).pos][j] == ' ';
    }
  }

  /** More bytes behind a line leave it a line. */
  lemma GrammarExtends(s: string, b: string, k: Marks)
    requires IsRequestLine(s, k)
    ensures IsRequestLine(s + b, k) && Run(INITIAL, s + b, 0) == Run(INITIAL, s, 0)
  {
    hide Run, MethodOf, Recorded;
    LineEnds(s, k);
    SameMethod(s, b, k);
    SameParts(s, b, k);
    AcceptsGrammar(s, k);
    AcceptsGrammar(s + b, k);
    RunShort(INITIAL, s + b, 0, |s|);
    assert (s + b)[..|s|] == s;
  }

  lemma SameMethod(s: string, b: string, k: Marks)
    requires IsMethod(s, k) && k.token <= |s|
    ensures IsMethod(s + b, k)
  {
    assert (s + b)[..k.verbEnd] == s[..k.verbEnd];
  }

  lemma SameParts(s: string, b: string, k: Marks)
    requires IsUrlToken(s, k) && IsVersion(s, k)
    ensures IsUrlToken(s + b, k) && IsVersion(s + b, k)
  {
  }

  lemma {:induction false} ReadsOk(o: Outcome, s: string, pieces: seq<string>)
    requires o.Ok? ==> o == Run(INITIAL, s, 0)
    requires o.Again? ==> (Restarted(o.a) == INITIAL && All(IsUpper, s, 0, |s|)) || ' ' in s
    ensures LineReads(o, s, pieces).Ok? ==> LineReads(o, s, pieces) == Run(INITIAL, s + Flatten(pieces), 0)
    decreases |pieces|
  {
    hide Run, IsRequestLine, MethodOf;
    if pieces == [] {
      assert s + Flatten(pieces) == s;
    } else if o.Ok? {
      var k := AcceptedInGrammar(s);
      GrammarExtends(s, Flatten(pieces), k);
    } else if o.Again? {
      var t := s + pieces[0];
      assert s + Flatten(pieces) == t + Flatten(pieces[1..]);
      var next := Run(Restarted(o.a), t, |s|);
      if v :| 0 <= v < |s| && s[v] == ' ' {
        assert t[v] == ' ';
        StartedLate(Restarted(o.a), t, |s|, v);
      } else {
        RestartInMethod(t, |s|);
      }
      ReadsOk(next, t, pieces[1..]);
    }
  }

  /** Any bytes delivered in any number of reads: the calls end in an accepted line if and only if
      the whole begins with a line of the grammar and every read that does not complete it ends inside
      the method; and then they end as one read. */
  lemma ReadsExactly(pieces: seq<string>)
    requires pieces != []
    ensures var o := LineReads(Run(INITIAL, pieces[0], 0), pieces[0], pieces[1..]);
            && (o.Ok? <==> exists k :: IsRequestLine(Flatten(pieces), k) && CutsFit(0, pieces, k))
            && (o.Ok? ==> o == Run(INITIAL, Flatten(pieces), 0))
  {
    hide Run, IsRequestLine, CutsFit, Flatten, MethodOf;
    var o := LineReads(Run(INITIAL, pieces[0], 0), pieces[0], pieces[1..]);
    RestartInMethod(pieces[0], 0);
    ReadsOk(Run(INITIAL, pieces[0], 0), pieces[0], pieces[1..]);
    FirstPiece(pieces);
    if o.Ok? {
      var k := AcceptedInGrammar(Flatten(pieces));
      ManyReads(pieces, k);
    }
    forall k | IsRequestLine(Flatten(pieces), k) && CutsFit(0, pieces, k)
      ensures o.Ok?
    {
      ManyReads(pieces, k);
    }
  }

  lemma FirstPiece(pieces: seq<string>)
    requires pieces != []
    ensures Flatten(pieces) == pieces[0] + Flatten(pieces[1..])
  {
  }

  /** The cuts fit exactly if each is inside the method or behind the line. */
  lemma {:induction false} CutsFitExactly(n: nat, pieces: seq<string>, k: Marks)
    ensures CutsFit(n, pieces, k)
       <==> forall i :: 1 <= i <= |pieces| ==> n + |Flatten(pieces[..i])| < k.verbEnd || k.end <= n + |Flatten(pieces[..i])|
    decreases |pieces|
  {
    if pieces != [] {
      CutsFitExactly(n + |pieces[0]|, pieces[1..], k);
      assert pieces[..1] == [pieces[0]] && Flatten([pieces[0]]) == pieces[0] + Flatten([]) == pieces[0];
      forall i | 1 <= i <= |pieces|
        ensures |Flatten(pieces[..i])| == |pieces[0]| + |Flatten(pieces[1..][..i - 1])|
      {
        assert pieces[..i][1..] == pieces[1..][..i - 1];
      }
      if CutsFit(n, pieces, k) {
        forall i | 1 <= i <= |pieces|
          ensures n + |Flatten(pieces[..i])| < k.verbEnd || k.end <= n + |Flatten(pieces[..i])|
        {
          assert i > 1 ==> |Flatten(pieces[1..][..i - 1])| >= 0;
        }
      } else if n + |pieces[0]| < k.verbEnd || k.end <= n + |pieces[0]| {
        var i :| 1 <= i <= |pieces[1..]| && !(n + |pieces[0]| + |Flatten(pieces[1..][..i])| < k.verbEnd || k.end <= n + |pieces[0]| + |Flatten(pieces[1..][..i])|);
        assert |Flatten(pieces[..i + 1])| == |pieces[0]| + |Flatten(pieces[1..][..i])|;
      }
    }
  }
}
