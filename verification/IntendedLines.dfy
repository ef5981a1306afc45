/** The request lines HttpRequestParser is meant to read, written down from the text of a line and
    not from the automaton, against the lines the automaton accepts. */
module IntendedLines {
  import opened Text
  import opened HttpMessage
  import opened RequestLine

  // ------------------------------------------------------ what is intended

  datatype Authority = Authority(scheme: string, host: string, port: Option<string>)

  datatype Line = Line(
    verb: string, gap: string, authority: Option<Authority>, path: string,
    space: string, major: string, minor: string, ending: string)

  predicate Only(p: char -> bool, s: string)
  {
    forall i :: 0 <= i < |s| ==> p(s[i])
  }

  /** No space ends up in a URL, and no CR or LF stands in front of the line end. */
  predicate IsPathChar(c: char)
  {
    c != ' ' && c != '\r' && c != '\n'
  }

  /** A host must be named (section 2.7.1 of RFC 7230); an empty port is the default port. */
  predicate GoodAuthority(a: Authority)
  {
    && a.scheme != "" && Spelled(LETTERS, a.scheme) && a.host != "" && Spelled(HOST_CHARS, a.host)
    && (a.port.Some? ==> Spelled("0123456789", a.port.value))
  }

  lemma SpelledOnly(s: string)
    ensures Spelled(LETTERS, s) <==> Only(IsLetter, s)
    ensures Spelled(HOST_CHARS, s) <==> Only(IsHostChar, s)
    ensures Spelled("0123456789", s) <==> Only(IsDigit, s)
  {
    hide IsLetter, IsHostChar, IsDigit;
    forall k | 0 <= k < |s|
      ensures s[k] in LETTERS <==> IsLetter(s[k])
      ensures s[k] in HOST_CHARS <==> IsHostChar(s[k])
      ensures s[k] in "0123456789" <==> IsDigit(s[k])
    {
      Alphabets(s[k]);
    }
  }

  lemma AuthoritySpelled(a: Authority)
    ensures GoodAuthority(a) <==>
            && a.scheme != "" && Only(IsLetter, a.scheme) && a.host != "" && Only(IsHostChar, a.host)
            && (a.port.Some? ==> Only(IsDigit, a.port.value))
  {
    hide IsLetter, IsHostChar, IsDigit, Spelled, Only;
    SpelledOnly(a.scheme);
    SpelledOnly(a.host);
    if a.port.Some? {
      SpelledOnly(a.port.value);
    }
  }

  /** Method, blanks, a path or an absolute URL with one, blanks, "HTTP/" and a number of digits on
      each side of a dot (section 3.1 of RFC 2616), CR LF or LF. */
  predicate GoodLine(l: Line)
  {
    && MethodOf(l.verb) != NotSupport && l.gap != "" && Only(IsBlank, l.gap)
    && (l.authority.Some? ==> GoodAuthority(l.authority.value))
    && l.path != "" && l.path[0] == '/' && Only(IsPathChar, l.path) && l.space != "" && Only(IsBlank, l.space)
    && l.major != "" && Only(IsDigit, l.major) && l.minor != "" && Only(IsDigit, l.minor)
    && (l.ending == "\n" || l.ending == "\r\n")
  }

  function PortText(port: Option<string>): string
  {
    if port.Some? then ":" + port.value else ""
  }

  function AuthorityText(a: Option<Authority>): string
  {
    if a.Some? then a.value.scheme + ("://" + (a.value.host + PortText(a.value.port))) else ""
  }

  function VersionText(l: Line): string
  {
    "HTTP/" + (l.major + ("." + (l.minor + l.ending)))
  }

  function LineText(l: Line): string
  {
    l.verb + (l.gap + (AuthorityText(l.authority) + (l.path + (l.space + VersionText(l)))))
  }

  /** The bytes begin with an intended line. */
  ghost predicate IntendedLine(s: string)
  {
    exists l, rest :: GoodLine(l) && s == LineText(l) + rest
  }

  // ------------------------------------------------------ the same by offsets

  predicate HasAt(s: string, i: nat, w: string)
  {
    i + |w| <= |s| && s[i..i + |w|] == w
  }

  /** The token without line ends and with a host. */
  predicate CleanToken(s: string, k: Marks)
  {
    IsUrlToken(s, k) && All(IsPathChar, s, k.path, k.pathEnd) && (HasAuthority(k) ==> k.schemeEnd + 3 < k.hostEnd)
  }

  predicate IntendedVersion(s: string, k: Marks)
  {
    && k.pathEnd < k.version && All(IsBlank, s, k.pathEnd, k.version)
    && k.slash == k.version + 4 && HasAt(s, k.version, "HTTP/")
    && k.slash + 2 <= k.dot && All(IsDigit, s, k.slash + 1, k.dot)
    && k.dot + 2 <= k.minorEnd < k.end <= |s| && s[k.dot] == '.' && All(IsDigit, s, k.dot + 1, k.minorEnd)
    && (if s[k.minorEnd] == '\n' then k.end == k.minorEnd + 1
        else s[k.minorEnd] == '\r' && k.end == k.minorEnd + 2 && s[k.minorEnd + 1] == '\n')
  }

  predicate Intended(s: string, k: Marks)
  {
    IsMethod(s, k) && CleanToken(s, k) && IntendedVersion(s, k)
  }

  function OffsetsOf(l: Line): Marks
  {
    var token := |l.verb| + |l.gap|;
    var schemeEnd := if l.authority.Some? then token + |l.authority.value.scheme| else 0;
    var hostEnd := if l.authority.Some? then schemeEnd + 3 + |l.authority.value.host| else 0;
    var path := token + |AuthorityText(l.authority)|;
    var version := path + |l.path| + |l.space|;
    var dot := version + 5 + |l.major|;
    var minorEnd := dot + 1 + |l.minor|;
    Marks(|l.verb|, token, schemeEnd, hostEnd, path, path + |l.path|, version, version + 4, dot, minorEnd, minorEnd + |l.ending|)
  }

  /** The first word of what is left. */
  lemma Word(s: string, i: nat, w: string, rest: string)
    requires i <= |s| && s[i..] == w + rest
    ensures HasAt(s, i, w) && i + |w| <= |s| && s[i + |w|..] == rest
  {
    assert s[i..][..|w|] == w && s[i..][|w|..] == rest;
  }

  lemma OnlyAt(p: char -> bool, s: string, i: nat, w: string)
    requires HasAt(s, i, w)
    ensures Only(p, w) <==> All(p, s, i, i + |w|)
  {
    assert forall k :: 0 <= k < |w| ==> w[k] == s[i + k];
    if All(p, s, i, i + |w|) {
      forall k | 0 <= k < |w|
        ensures p(w[k])
      {
        assert p(s[i + k]);
      }
    }
  }

  lemma FrontParts(s: string, l: Line, rest: string)
    requires s == LineText(l) + rest
    ensures var k := OffsetsOf(l);
            && HasAt(s, 0, l.verb) && HasAt(s, |l.verb|, l.gap) && HasAt(s, k.token, AuthorityText(l.authority))
            && HasAt(s, k.path, l.path) && HasAt(s, k.pathEnd, l.space)
            && k.version <= |s| && s[k.version..] == VersionText(l) + rest
  {
    hide VersionText, AuthorityText, HasAt;
    var k := OffsetsOf(l);
    var a := AuthorityText(l.authority);
    var t5 := VersionText(l) + rest;
    var t4 := l.space + t5;
    var t3 := l.path + t4;
    var t2 := a + t3;
    var t1 := l.gap + t2;
    assert s[0..] == s && s == l.verb + t1;
    Word(s, 0, l.verb, t1);
    Word(s, |l.verb|, l.gap, t2);
    Word(s, k.token, a, t3);
    Word(s, k.path, l.path, t4);
    Word(s, k.pathEnd, l.space, t5);
  }

  lemma VersionParts(s: string, l: Line, rest: string)
    requires s == LineText(l) + rest && GoodLine(l)
    ensures var k := OffsetsOf(l); k.version <= k.end <= |s| && s[k.end..] == rest
    ensures IntendedVersion(s, OffsetsOf(l))
  {
    hide AuthorityText, LineText, MethodOf, HasAt, GoodAuthority;
    FrontParts(s, l, rest);
    var k := OffsetsOf(l);
    var t4 := l.ending + rest;
    var t3 := l.minor + t4;
    var t2 := "." + t3;
    var t1 := l.major + t2;
    assert VersionText(l) + rest == "HTTP/" + t1;
    Word(s, k.version, "HTTP/", t1);
    Word(s, k.slash + 1, l.major, t2);
    Word(s, k.dot, ".", t3);
    Word(s, k.dot + 1, l.minor, t4);
    Word(s, k.minorEnd, l.ending, rest);
    VersionAt(s, l);
  }

  lemma VersionAt(s: string, l: Line)
    requires GoodLine(l)
    requires var k := OffsetsOf(l);
             && HasAt(s, k.pathEnd, l.space) && HasAt(s, k.version, "HTTP/") && HasAt(s, k.slash + 1, l.major)
             && HasAt(s, k.dot, ".") && HasAt(s, k.dot + 1, l.minor) && HasAt(s, k.minorEnd, l.ending)
    ensures IntendedVersion(s, OffsetsOf(l))
  {
    hide AuthorityText, MethodOf, GoodAuthority, IsDigit, IsBlank;
    var k := OffsetsOf(l);
    OnlyAt(IsBlank, s, k.pathEnd, l.space);
    OnlyAt(IsDigit, s, k.slash + 1, l.major);
    OnlyAt(IsDigit, s, k.dot + 1, l.minor);
    assert s[k.dot] == s[k.dot..k.dot + 1][0];
    EndingAt(s, k.minorEnd, l.ending);
  }

  lemma EndingAt(s: string, i: nat, w: string)
    requires HasAt(s, i, w) && (w == "\n" || w == "\r\n")
    ensures i < |s| && (if s[i] == '\n' then |w| == 1 else s[i] == '\r' && |w| == 2 && i + 1 < |s| && s[i + 1] == '\n')
  {
    assert forall k :: 0 <= k < |w| ==> w[k] == s[i + k];
    assert w[0] == s[i];
  }

  lemma MethodParts(s: string, l: Line, rest: string)
    requires s == LineText(l) + rest && GoodLine(l)
    ensures IsMethod(s, OffsetsOf(l))
  {
    hide AuthorityText, LineText, MethodOf, VersionText, GoodAuthority;
    FrontParts(s, l, rest);
    var k := OffsetsOf(l);
    assert s[0..|l.verb|] == s[..|l.verb|];
    OnlyAt(IsBlank, s, |l.verb|, l.gap);
  }

  lemma AuthorityWords(s: string, i: nat, a: Authority, rest: string)
    requires i <= |s| && s[i..] == AuthorityText(Some(a)) + rest
    ensures var schemeEnd := i + |a.scheme|;
            var hostEnd := schemeEnd + 3 + |a.host|;
            && HasAt(s, i, a.scheme) && HasAt(s, schemeEnd, "://") && HasAt(s, schemeEnd + 3, a.host)
            && i + |AuthorityText(Some(a))| == hostEnd + |PortText(a.port)|
            && hostEnd <= |s| && s[hostEnd..] == PortText(a.port) + rest
  {
    hide HasAt, PortText;
    var t3 := PortText(a.port) + rest;
    var t2 := a.host + t3;
    var t1 := "://" + t2;
    assert AuthorityText(Some(a)) + rest == a.scheme + t1;
    var schemeEnd := i + |a.scheme|;
    Word(s, i, a.scheme, t1);
    Word(s, schemeEnd, "://", t2);
    Word(s, schemeEnd + 3, a.host, t3);
  }

  lemma PortWords(s: string, i: nat, port: string, rest: string)
    requires i <= |s| && s[i..] == PortText(Some(port)) + rest
    ensures HasAt(s, i, ":") && HasAt(s, i + 1, port)
  {
    hide HasAt;
    assert PortText(Some(port)) + rest == ":" + (port + rest);
    Word(s, i, ":", port + rest);
    Word(s, i + 1, port, rest);
  }

  lemma CharAt(s: string, i: nat, w: string, k: nat)
    requires HasAt(s, i, w) && k < |w|
    ensures i + k < |s| && s[i + k] == w[k]
  {
  }

  lemma AuthorityParts(s: string, i: nat, a: Authority, rest: string)
    requires GoodAuthority(a) && i <= |s| && s[i..] == AuthorityText(Some(a)) + rest
    ensures var schemeEnd := i + |a.scheme|;
            var hostEnd := schemeEnd + 3 + |a.host|;
            var path := i + |AuthorityText(Some(a))|;
            && hostEnd <= path <= |s| && All(IsLetter, s, i, schemeEnd)
            && s[schemeEnd] == ':' && s[schemeEnd + 1] == '/' && s[schemeEnd + 2] == '/'
            && All(IsHostChar, s, schemeEnd + 3, hostEnd)
            && (hostEnd < path ==> s[hostEnd] == ':' && All(IsDigit, s, hostEnd + 1, path))
  {
    hide IsLetter, IsHostChar, IsDigit, HasAt, AuthorityText, All, Only, GoodAuthority;
    AuthoritySpelled(a);
    AuthorityWords(s, i, a, rest);
    var schemeEnd := i + |a.scheme|;
    var hostEnd := schemeEnd + 3 + |a.host|;
    OnlyAt(IsLetter, s, i, a.scheme);
    OnlyAt(IsHostChar, s, schemeEnd + 3, a.host);
    CharAt(s, schemeEnd, "://", 0);
    CharAt(s, schemeEnd, "://", 1);
    CharAt(s, schemeEnd, "://", 2);
    AuthorityEnds(s, i, a, rest);
    if a.port.Some? {
      PortWords(s, hostEnd, a.port.value, rest);
      OnlyAt(IsDigit, s, hostEnd + 1, a.port.value);
      CharAt(s, hostEnd, ":", 0);
    }
  }

  lemma AuthorityEnds(s: string, i: nat, a: Authority, rest: string)
    requires i <= |s| && s[i..] == AuthorityText(Some(a)) + rest
    ensures i + |AuthorityText(Some(a))| <= |s|
  {
    hide AuthorityText;
  }

  lemma TokenParts(s: string, l: Line, rest: string)
    requires s == LineText(l) + rest && GoodLine(l)
    ensures CleanToken(s, OffsetsOf(l))
  {
    hide LineText, MethodOf, VersionText, GoodAuthority, Only, IsLetter, IsHostChar, IsDigit, All, AuthorityText;
    FrontParts(s, l, rest);
    PathParts(s, l, rest);
    var k := OffsetsOf(l);
    if l.authority.Some? {
      var a := l.authority.value;
      assert s[k.token..] == s[k.token..k.path] + s[k.path..];
      AuthorityParts(s, k.token, a, s[k.path..]);
      AuthorityLong(a);
    } else {
      NoAuthority();
    }
  }

  lemma NoAuthority()
    ensures AuthorityText(None) == ""
  {
  }

  lemma PathParts(s: string, l: Line, rest: string)
    requires s == LineText(l) + rest && GoodLine(l)
    ensures var k := OffsetsOf(l);
            && k.path < k.pathEnd < |s| && s[k.path] == '/' && s[k.pathEnd] == ' '
            && All(IsPathChar, s, k.path, k.pathEnd) && All(NotBlank, s, k.path, k.pathEnd)
  {
    hide LineText, MethodOf, VersionText, GoodAuthority, AuthorityText;
    FrontParts(s, l, rest);
    var k := OffsetsOf(l);
    OnlyAt(IsPathChar, s, k.path, l.path);
    OnlyAt(IsBlank, s, k.pathEnd, l.space);
    assert IsBlank(s[k.pathEnd]);
    assert s[k.path..k.pathEnd][0] == s[k.path];
  }

  lemma AuthorityLong(a: Authority)
    requires GoodAuthority(a)
    ensures |AuthorityText(Some(a))| >= |a.scheme| + 3 + |a.host| && a.scheme != "" && a.host != ""
  {
  }

  /** An intended line has its parts where its text puts them. */
  lemma LineIntended(s: string, l: Line, rest: string)
    requires s == LineText(l) + rest && GoodLine(l)
    ensures Intended(s, OffsetsOf(l)) && s[OffsetsOf(l).end..] == rest
  {
    hide LineText, GoodLine, IsMethod, CleanToken, IntendedVersion;
    MethodParts(s, l, rest);
    TokenParts(s, l, rest);
    VersionParts(s, l, rest);
  }

  // --------------------------------------------------- from offsets to text

  function AuthorityAt(s: string, k: Marks): Option<Authority>
    requires IsUrlToken(s, k)
  {
    if !HasAuthority(k) then None else
    Some(Authority(s[k.token..k.schemeEnd], s[k.schemeEnd + 3..k.hostEnd], if k.hostEnd < k.path then Some(s[k.hostEnd + 1..k.path]) else None))
  }

  function LineAt(s: string, k: Marks): Line
    requires Intended(s, k)
  {
    Line(s[..k.verbEnd], s[k.verbEnd..k.token], AuthorityAt(s, k), s[k.path..k.pathEnd],
         s[k.pathEnd..k.version], s[k.slash + 1..k.dot], s[k.dot + 1..k.minorEnd], s[k.minorEnd..k.end])
  }

  lemma SliceOnly(p: char -> bool, s: string, i: nat, j: nat)
    requires All(p, s, i, j)
    ensures Only(p, s[i..j])
  {
  }

  lemma Cut(s: string, i: nat, j: nat)
    requires i <= j <= |s|
    ensures s[i..] == s[i..j] + s[j..]
  {
  }

  lemma AuthoritySlices(s: string, k: Marks)
    requires IsUrlToken(s, k)
    ensures k.token <= k.path <= |s| && AuthorityText(AuthorityAt(s, k)) == s[k.token..k.path]
  {
    hide IsLetter, IsHostChar, IsDigit, NotBlank, All;
    if HasAuthority(k) {
      var port := AuthorityAt(s, k).value.port;
      PortSlice(s, k.hostEnd, k.path);
      ColonSlice(s, k.schemeEnd);
      AuthorityJoins(s, k.token, k.schemeEnd, k.hostEnd, k.path);
    }
  }

  lemma PortSlice(s: string, i: nat, j: nat)
    requires i <= j <= |s| && (i < j ==> s[i] == ':')
    ensures PortText(if i < j then Some(s[i + 1..j]) else None) == s[i..j]
  {
  }

  lemma ColonSlice(s: string, i: nat)
    requires i + 3 <= |s| && s[i] == ':' && s[i + 1] == '/' && s[i + 2] == '/'
    ensures s[i..i + 3] == "://"
  {
  }

  lemma AuthorityJoins(s: string, i: nat, a: nat, b: nat, j: nat)
    requires i <= a && a + 3 <= b <= j <= |s|
    ensures s[i..a] + (s[a..a + 3] + (s[a + 3..b] + s[b..j])) == s[i..j]
  {
  }

  lemma AuthorityGood(s: string, k: Marks)
    requires CleanToken(s, k) && HasAuthority(k)
    ensures GoodAuthority(AuthorityAt(s, k).value)
  {
    hide IsLetter, IsHostChar, IsDigit, NotBlank, IsPathChar, GoodAuthority;
    AuthoritySpelled(AuthorityAt(s, k).value);
    SliceOnly(IsLetter, s, k.token, k.schemeEnd);
    SliceOnly(IsHostChar, s, k.schemeEnd + 3, k.hostEnd);
    if k.hostEnd < k.path {
      SliceOnly(IsDigit, s, k.hostEnd + 1, k.path);
    }
  }

  /** The end of a line, cut word by word. */
  lemma VersionSlices(s: string, k: Marks)
    requires IntendedVersion(s, k)
    ensures k.version <= k.slash && k.slash + 1 <= k.dot && k.dot + 1 <= k.minorEnd <= k.end <= |s|
    ensures s[k.version..] == "HTTP/" + s[k.slash + 1..] && s[k.slash + 1..] == s[k.slash + 1..k.dot] + s[k.dot..]
    ensures s[k.dot..] == "." + s[k.dot + 1..] && s[k.dot + 1..] == s[k.dot + 1..k.minorEnd] + s[k.minorEnd..]
    ensures s[k.minorEnd..] == s[k.minorEnd..k.end] + s[k.end..]
  {
    hide All, IsDigit, IsBlank, HasAt;
    CutAt(s, k.version, "HTTP/");
    Cut(s, k.slash + 1, k.dot);
    DotSlice(s, k.dot);
    CutAt(s, k.dot, ".");
    Cut(s, k.dot + 1, k.minorEnd);
    Cut(s, k.minorEnd, k.end);
  }

  lemma CutAt(s: string, i: nat, w: string)
    requires HasAt(s, i, w)
    ensures i + |w| <= |s| && s[i..] == w + s[i + |w|..]
  {
  }

  lemma DotSlice(s: string, i: nat)
    requires i < |s| && s[i] == '.'
    ensures HasAt(s, i, ".")
  {
  }

  lemma EndingSlice(s: string, k: Marks)
    requires IntendedVersion(s, k)
    ensures k.minorEnd <= k.end <= |s| && (s[k.minorEnd..k.end] == "\n" || s[k.minorEnd..k.end] == "\r\n")
  {
    hide All;
  }

  lemma VersionJoins(l: Line, rest: string)
    ensures VersionText(l) + rest == "HTTP/" + (l.major + ("." + (l.minor + (l.ending + rest))))
  {
  }

  lemma Nest(s: string, a: string, b: string, c: string, d: string, e: string, t: seq<string>)
    requires |t| == 5 && s == a + t[0] && t[0] == b + t[1] && t[1] == c + t[2] && t[2] == d + t[3] && t[3] == e + t[4]
    ensures s == a + (b + (c + (d + (e + t[4]))))
  {
  }

  lemma VersionAssembled(v: string, l: Line, t: seq<string>)
    requires |t| == 5 && v == "HTTP/" + t[0] && t[0] == l.major + t[1] && t[1] == "." + t[2] && t[2] == l.minor + t[3] && t[3] == l.ending + t[4]
    ensures v == VersionText(l) + t[4]
  {
    hide VersionText;
    VersionJoins(l, t[4]);
    Nest(v, "HTTP/", l.major, ".", l.minor, l.ending, t);
  }

  lemma VersionWhole(s: string, k: Marks)
    requires Intended(s, k)
    ensures k.version <= |s| && k.end <= |s| && s[k.version..] == VersionText(LineAt(s, k)) + s[k.end..]
  {
    hide VersionText, AuthorityAt, IsMethod, IsUrlToken, IntendedVersion;
    VersionSlices(s, k);
    VersionAssembled(s[k.version..], LineAt(s, k), [s[k.slash + 1..], s[k.dot..], s[k.dot + 1..], s[k.minorEnd..], s[k.end..]]);
  }

  /** Offsets of an intended line are those of its text. */
  lemma IntendedText(s: string, k: Marks)
    requires Intended(s, k)
    ensures k.end <= |s| && s == LineText(LineAt(s, k)) + s[k.end..]
  {
    hide LineText, VersionText, AuthorityText, AuthorityAt, IsMethod, IsUrlToken, All, HasAt, IntendedVersion;
    var l := LineAt(s, k);
    AuthoritySlices(s, k);
    VersionWhole(s, k);
    FrontSlices(s, k);
    Regroup(l, s[k.end..]);
    Nest(s, l.verb, l.gap, AuthorityText(l.authority), l.path, l.space,
         [s[k.verbEnd..], s[k.token..], s[k.path..], s[k.pathEnd..], s[k.version..]]);
  }

  lemma FrontSlices(s: string, k: Marks)
    requires Intended(s, k)
    ensures k.verbEnd <= k.token <= k.path <= k.pathEnd <= k.version <= |s|
    ensures s == s[..k.verbEnd] + s[k.verbEnd..] && s[k.verbEnd..] == s[k.verbEnd..k.token] + s[k.token..]
    ensures s[k.token..] == s[k.token..k.path] + s[k.path..] && s[k.path..] == s[k.path..k.pathEnd] + s[k.pathEnd..]
    ensures s[k.pathEnd..] == s[k.pathEnd..k.version] + s[k.version..]
  {
    hide MethodOf, All, IsAuthority, HasAt;
    Cut(s, 0, k.verbEnd);
    Cut(s, k.verbEnd, k.token);
    Cut(s, k.token, k.path);
    Cut(s, k.path, k.pathEnd);
    Cut(s, k.pathEnd, k.version);
    assert s[0..] == s && s[0..k.verbEnd] == s[..k.verbEnd];
  }

  lemma Regroup(l: Line, rest: string)
    ensures LineText(l) + rest ==
            l.verb + (l.gap + (AuthorityText(l.authority) + (l.path + (l.space + (VersionText(l) + rest)))))
  {
    hide AuthorityText, VersionText;
  }

  lemma IntendedGood(s: string, k: Marks)
    requires Intended(s, k)
    ensures GoodLine(LineAt(s, k))
  {
    hide AuthorityAt, MethodOf, GoodAuthority, IsBlank, IsDigit, IsPathChar;
    EndingSlice(s, k);
    SliceOnly(IsBlank, s, k.verbEnd, k.token);
    SliceOnly(IsPathChar, s, k.path, k.pathEnd);
    SliceOnly(IsBlank, s, k.pathEnd, k.version);
    SliceOnly(IsDigit, s, k.slash + 1, k.dot);
    SliceOnly(IsDigit, s, k.dot + 1, k.minorEnd);
    AuthoritySome(s, k);
    if HasAuthority(k) {
      AuthorityGood(s, k);
    }
  }

  lemma AuthoritySome(s: string, k: Marks)
    requires IsUrlToken(s, k)
    ensures AuthorityAt(s, k).Some? <==> HasAuthority(k)
  {
  }

  // ------------------------------------------------------ one place for each

  lemma TokenBegins(s: string, k: Marks)
    requires IsUrlToken(s, k)
    ensures k.token < |s| && (HasAuthority(k) <==> IsLetter(s[k.token]))
  {
  }

  lemma TokenUnique(s: string, j: Marks, k: Marks)
    requires IsUrlToken(s, j) && IsUrlToken(s, k) && j.token == k.token
    ensures j.path == k.path && j.pathEnd == k.pathEnd
    ensures HasAuthority(k) ==> j.schemeEnd == k.schemeEnd && j.hostEnd == k.hostEnd
  {
    TokenBegins(s, j);
    TokenBegins(s, k);
    if HasAuthority(j) {
      AllAt(IsLetter, s, j.token, j.schemeEnd, k.schemeEnd);
      AllAt(IsLetter, s, k.token, k.schemeEnd, j.schemeEnd);
      AuthorityUnique(s, j, k);
    }
    AllAt(NotBlank, s, j.path, j.pathEnd, k.pathEnd);
    AllAt(NotBlank, s, k.path, k.pathEnd, j.pathEnd);
  }

  lemma NoHostChars()
    ensures !IsHostChar(':') && !IsHostChar('/')
  {
  }

  lemma AuthorityUnique(s: string, j: Marks, k: Marks)
    requires IsUrlToken(s, j) && IsUrlToken(s, k) && HasAuthority(j) && HasAuthority(k) && j.schemeEnd == k.schemeEnd
    ensures j.hostEnd == k.hostEnd && j.path == k.path
  {
    NoHostChars();
    hide IsLetter, IsHostChar;
    AllAt(IsHostChar, s, j.schemeEnd + 3, j.hostEnd, k.hostEnd);
    AllAt(IsHostChar, s, k.schemeEnd + 3, k.hostEnd, j.hostEnd);
    if j.hostEnd < j.path && k.hostEnd < k.path {
      AllAt(IsDigit, s, j.hostEnd + 1, j.path, k.path);
      AllAt(IsDigit, s, k.hostEnd + 1, k.path, j.path);
    }
  }

  lemma IntendedVersionUnique(s: string, j: Marks, k: Marks)
    requires IntendedVersion(s, j) && IsVersion(s, k) && j.pathEnd == k.pathEnd
    ensures j.version == k.version && j.slash == k.slash && j.dot == k.dot && j.minorEnd == k.minorEnd && j.end == k.end
    ensures IsVersion(s, j)
  {
    ProtocolAt(s, j);
    AllAt(IsBlank, s, j.pathEnd, j.version, k.version);
    AllAt(IsBlank, s, k.pathEnd, k.version, j.version);
    AllAt(IsP, s, k.version + 3, k.slash, j.slash);
    AllAt(IsDigit, s, j.slash + 1, j.dot, k.dot);
    AllAt(IsDigit, s, k.slash + 1, k.dot, j.dot);
    AllAt(IsDigit, s, j.dot + 1, j.minorEnd, k.minorEnd);
  }

  lemma ProtocolAt(s: string, j: Marks)
    requires HasAt(s, j.version, "HTTP/")
    ensures j.version + 5 <= |s|
    ensures s[j.version] == 'H' && s[j.version + 1] == 'T' && s[j.version + 2] == 'T' && s[j.version + 3] == 'P' && s[j.version + 4] == '/'
  {
    CharAt(s, j.version, "HTTP/", 0);
    CharAt(s, j.version, "HTTP/", 1);
    CharAt(s, j.version, "HTTP/", 2);
    CharAt(s, j.version, "HTTP/", 3);
    CharAt(s, j.version, "HTTP/", 4);
  }

  /** An accepted line that is also an intended one has its parts in the intended places. */
  lemma SamePlaces(s: string, j: Marks, k: Marks)
    requires Intended(s, j) && IsRequestLine(s, k)
    ensures j == k.(schemeEnd := j.schemeEnd, hostEnd := j.hostEnd)
    ensures HasAuthority(k) ==> j == k
    ensures IsRequestLine(s, j)
  {
    hide IsMethod, IsUrlToken, IsVersion, IntendedVersion;
    MethodMarksUnique(s, j, k);
    TokenUnique(s, j, k);
    IntendedVersionUnique(s, j, k);
  }

  // ------------------------------------------------------------ the theorems

  /** What an accepted line needs to be an intended one. */
  predicate WantedOf(s: string, k: Marks)
    requires IsRequestLine(s, k)
  {
    IsStrict(s, k) && All(IsPathChar, s, k.path, k.pathEnd) && (HasAuthority(k) ==> k.schemeEnd + 3 < k.hostEnd)
  }

  lemma WantedIntended(s: string, k: Marks)
    requires IsRequestLine(s, k)
    ensures WantedOf(s, k) <==> Intended(s, k)
  {
    hide IsMethod, IsUrlToken;
    if WantedOf(s, k) {
      StrictVersion(s, k);
    }
    if IntendedVersion(s, k) {
      AllAt(IsDigit, s, k.dot + 1, k.minorEnd, k.dot + 2);
    }
  }

  lemma StrictVersion(s: string, k: Marks)
    requires IsVersion(s, k) && k.slash == k.version + 4 && (k.minorEnd == k.dot + 3 ==> IsDigit(s[k.dot + 2]))
    ensures IntendedVersion(s, k)
  {
    assert IsP(s[k.version + 3]);
    assert s[k.version..k.version + 5] == "HTTP/";
  }

  /** An accepted line is an intended one if and only if its protocol name is exactly "HTTP", its
      second minor character, if any, is a digit, its URL holds no CR or LF, and its host, if it has
      a scheme, is not empty. */
  lemma AcceptedIsIntended(s: string, k: Marks)
    requires IsRequestLine(s, k)
    ensures Run(INITIAL, s, 0).Ok?
    ensures IntendedLine(s) <==> WantedOf(s, k)
  {
    hide Run, IsRequestLine, WantedOf, Intended, LineText, GoodLine;
    AcceptsGrammar(s, k);
    WantedIntended(s, k);
    if Intended(s, k) {
      IntendedText(s, k);
      IntendedGood(s, k);
    }
    if IntendedLine(s) {
      var l, rest :| GoodLine(l) && s == LineText(l) + rest;
      LineIntended(s, l, rest);
      SamePlaces(s, OffsetsOf(l), k);
      WantedIntended(s, OffsetsOf(l));
      SameWanted(s, OffsetsOf(l), k);
    }
  }

  lemma SameWanted(s: string, j: Marks, k: Marks)
    requires IsRequestLine(s, j) && IsRequestLine(s, k) && j == k.(schemeEnd := j.schemeEnd, hostEnd := j.hostEnd)
    requires HasAuthority(k) ==> j == k
    ensures WantedOf(s, j) ==> WantedOf(s, k)
  {
    hide IsMethod, IsUrlToken, IsVersion;
  }

  lemma DigitsRead(s: string, i: nat, w: string)
    requires HasAt(s, i, w) && 1 <= |w| <= 2 && Only(IsDigit, w)
    ensures Number(s, i, i + |w|) == DigitsValue(w, 0)
  {
    CharAt(s, i, w, 0);
    assert IsDigit(w[0]);
    if |w| == 2 {
      CharAt(s, i, w, 1);
      assert IsDigit(w[1]) && w[1..][0] == w[1] && w[1..][1..] == "";
      assert DigitsValue(w[1..], w[0] as int - '0' as int) == Number(s, i, i + 2);
    } else {
      assert w[1..] == "";
    }
  }

  lemma ShortVersion(s: string, k: Marks)
    requires IntendedVersion(s, k) && k.dot <= k.slash + 3 && k.minorEnd <= k.dot + 3
    ensures IsVersion(s, k)
  {
    ProtocolAt(s, k);
    AllAt(IsDigit, s, k.dot + 1, k.minorEnd, k.dot + 1);
    if k.minorEnd == k.dot + 3 {
      AllAt(IsDigit, s, k.dot + 1, k.minorEnd, k.dot + 2);
    }
  }

  /** An intended line, with anything behind it, is accepted if and only if neither number has more
      than two digits, and then method, URL, version and the line's end come out as they stand there. */
  lemma IntendedReads(l: Line, rest: string)
    requires GoodLine(l)
    ensures var s := LineText(l) + rest;
            var o := Run(INITIAL, s, 0);
            && (o.Ok? <==> |l.major| <= 2 && |l.minor| <= 2)
            && (o.Ok? ==>
                  && o.pos == |LineText(l)| && o.a.verb == MethodOf(l.verb)
                  && 0 <= o.a.urlStart <= o.a.urlEnd <= |s| && s[o.a.urlStart..o.a.urlEnd] == l.path
                  && o.a.major == DigitsValue(l.major, 0) && o.a.minor == DigitsValue(l.minor, 0))
  {
    hide Run, IsMethod, IsUrlToken, IsVersion, CleanToken, IntendedVersion, LineText, VersionText, AuthorityText, GoodAuthority, PathFold, MethodOf, Number, DigitsValue, All, Only;
    var s, k := LineText(l) + rest, OffsetsOf(l);
    LineIntended(s, l, rest);
    TokenIn(s, k);
    if |l.major| <= 2 && |l.minor| <= 2 {
      ShortVersion(s, k);
      AcceptsGrammar(s, k);
      MarksOrdered(s, k);
      FrontParts(s, l, rest);
      NumberParts(s, l, rest);
      assert |s[k.end..]| == |rest| && |s| == |LineText(l)| + |rest|;
      assert s[..|l.verb|] == s[0..|l.verb|];
    } else if Run(INITIAL, s, 0).Ok? {
      var j := AcceptedInGrammar(s);
      SamePlaces(s, k, j);
      VersionBounds(s, k);
    }
  }

  lemma TokenIn(s: string, k: Marks)
    requires CleanToken(s, k)
    ensures IsUrlToken(s, k)
  {
  }

  lemma VersionBounds(s: string, k: Marks)
    requires IsVersion(s, k)
    ensures k.dot <= k.slash + 3 && k.minorEnd <= k.dot + 3
  {
  }

  lemma NumberParts(s: string, l: Line, rest: string)
    requires s == LineText(l) + rest && GoodLine(l) && |l.major| <= 2 && |l.minor| <= 2
    ensures var k := OffsetsOf(l);
            && k.minorEnd <= |s|
            && Number(s, k.slash + 1, k.dot) == DigitsValue(l.major, 0) && Number(s, k.dot + 1, k.minorEnd) == DigitsValue(l.minor, 0)
  {
    hide AuthorityText, LineText, MethodOf, HasAt, GoodAuthority, Number, DigitsValue;
    FrontParts(s, l, rest);
    var k := OffsetsOf(l);
    var t3 := l.minor + (l.ending + rest);
    assert VersionText(l) + rest == "HTTP/" + (l.major + ("." + t3));
    Word(s, k.version, "HTTP/", l.major + ("." + t3));
    Word(s, k.slash + 1, l.major, "." + t3);
    Word(s, k.dot, ".", t3);
    Word(s, k.dot + 1, l.minor, l.ending + rest);
    DigitsRead(s, k.slash + 1, l.major);
    DigitsRead(s, k.dot + 1, l.minor);
    WordEnds(s, k.dot + 1, l.minor);
  }

  lemma WordEnds(s: string, i: nat, w: string)
    requires HasAt(s, i, w)
    ensures i + |w| <= |s|
  {
  }

  // ------------------------------------------------------------- five inputs

  /** Accepted lines that are not intended: "HTTPP/1.1", a letter for the second minor digit, a URL
      that runs over a line end and swallows what looks like a header field, one with a bare LF, and an
      empty host. */
  lemma GrammarIsLoose()
    ensures Run(INITIAL, "GET / HTTPP/1.1\n", 0).Ok? && !IntendedLine("GET / HTTPP/1.1\n")
    ensures Run(INITIAL, "GET / HTTP/1.1x\n", 0).Ok? && !IntendedLine("GET / HTTP/1.1x\n")
    ensures Run(INITIAL, "GET /\r\nA:b HTTP/1.1\r\n", 0).Ok? && !IntendedLine("GET /\r\nA:b HTTP/1.1\r\n")
    ensures Run(INITIAL, "GET /\n HTTP/1.1\n", 0).Ok? && !IntendedLine("GET /\n HTTP/1.1\n")
    ensures Run(INITIAL, "GET a:/// HTTP/1.1\n", 0).Ok? && !IntendedLine("GET a:/// HTTP/1.1\n")
  {
    hide Run, IntendedLine, WantedOf, IsRequestLine;
    LooseName();
    LooseMinor();
    LineEndsInUrl();
    LineFeedInUrl();
    EmptyHost();
    AcceptedIsIntended("GET / HTTPP/1.1\n", Marks(3, 4, 0, 0, 4, 5, 6, 11, 13, 15, 16));
    AcceptedIsIntended("GET / HTTP/1.1x\n", Marks(3, 4, 0, 0, 4, 5, 6, 10, 12, 15, 16));
    AcceptedIsIntended("GET /\r\nA:b HTTP/1.1\r\n", Marks(3, 4, 0, 0, 4, 10, 11, 15, 17, 19, 21));
    AcceptedIsIntended("GET /\n HTTP/1.1\n", Marks(3, 4, 0, 0, 4, 6, 7, 11, 13, 15, 16));
    AcceptedIsIntended("GET a:/// HTTP/1.1\n", Marks(3, 4, 5, 8, 8, 9, 10, 14, 16, 18, 19));
  }

  lemma LooseName()
    ensures IsRequestLine("GET / HTTPP/1.1\n", Marks(3, 4, 0, 0, 4, 5, 6, 11, 13, 15, 16))
    ensures !WantedOf("GET / HTTPP/1.1\n", Marks(3, 4, 0, 0, 4, 5, 6, 11, 13, 15, 16))
  {
    assert "GET / HTTPP/1.1\n"[..3] == "GET";
  }

  lemma LooseMinor()
    ensures IsRequestLine("GET / HTTP/1.1x\n", Marks(3, 4, 0, 0, 4, 5, 6, 10, 12, 15, 16))
    ensures !WantedOf("GET / HTTP/1.1x\n", Marks(3, 4, 0, 0, 4, 5, 6, 10, 12, 15, 16))
  {
    assert "GET / HTTP/1.1x\n"[..3] == "GET";
  }

  lemma LineEndsInUrl()
    ensures IsRequestLine("GET /\r\nA:b HTTP/1.1\r\n", Marks(3, 4, 0, 0, 4, 10, 11, 15, 17, 19, 21))
    ensures !WantedOf("GET /\r\nA:b HTTP/1.1\r\n", Marks(3, 4, 0, 0, 4, 10, 11, 15, 17, 19, 21))
  {
    hide IsVersion, IsStrict;
    LineEndsVersion();
    var s := "GET /\r\nA:b HTTP/1.1\r\n";
    assert s[..3] == "GET";
    assert s[5] == '\r' && !IsPathChar(s[5]);
  }

  lemma LineEndsVersion()
    ensures IsVersion("GET /\r\nA:b HTTP/1.1\r\n", Marks(3, 4, 0, 0, 4, 10, 11, 15, 17, 19, 21))
  {
  }

  lemma LineFeedInUrl()
    ensures IsRequestLine("GET /\n HTTP/1.1\n", Marks(3, 4, 0, 0, 4, 6, 7, 11, 13, 15, 16))
    ensures !WantedOf("GET /\n HTTP/1.1\n", Marks(3, 4, 0, 0, 4, 6, 7, 11, 13, 15, 16))
  {
    var s := "GET /\n HTTP/1.1\n";
    assert s[..3] == "GET";
    assert s[5] == '\n' && !IsPathChar(s[5]);
  }

  lemma EmptyHost()
    ensures IsRequestLine("GET a:/// HTTP/1.1\n", Marks(3, 4, 5, 8, 8, 9, 10, 14, 16, 18, 19))
    ensures !WantedOf("GET a:/// HTTP/1.1\n", Marks(3, 4, 5, 8, 8, 9, 10, 14, 16, 18, 19))
  {
    hide IsVersion, IsUrlToken, IsStrict;
    EmptyHostVersion();
    EmptyHostToken();
    assert "GET a:/// HTTP/1.1\n"[..3] == "GET";
  }

  lemma EmptyHostToken()
    ensures IsUrlToken("GET a:/// HTTP/1.1\n", Marks(3, 4, 5, 8, 8, 9, 10, 14, 16, 18, 19))
  {
  }

  lemma EmptyHostVersion()
    ensures IsVersion("GET a:/// HTTP/1.1\n", Marks(3, 4, 5, 8, 8, 9, 10, 14, 16, 18, 19))
  {
  }
}
