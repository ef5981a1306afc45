/** The request record and the small tables of src/common/http_constant.h. */
module HttpMessage {
  import opened Text

  datatype Method = NotSupport | Get | Post | Put | Head

  datatype Version = Http10 | Http11 | NoVersion

  type Field = (string, string)

  type HeaderMap = map<string, string>

  datatype Request = Request(
    isStatic: bool,
    isComplex: bool,
    url: string,
    query: string,
    verb: Method,
    version: Version,
    headers: HeaderMap,
    body: string,
    isKeepAlive: bool)

  const FRESH := Request(true, false, "", "", NotSupport, NoVersion, map[], "", false)

  function MethodOf(s: string): Method
  {
    if s == "GET" then Get
    else if s == "POST" then Post
    else if s == "PUT" then Put
    else if s == "HEAD" then Head
    else NotSupport
  }

  function MethodName(m: Method): (s: string)
    requires m != NotSupport
    ensures MethodOf(s) == m && s != ""
    ensures forall k :: 0 <= k < |s| ==> 'A' <= s[k] <= 'Z'
  {
    match m
    case Get => "GET"
    case Post => "POST"
    case Put => "PUT"
    case Head => "HEAD"
  }

  function VersionText(v: Version): string
    requires v != NoVersion
  {
    if v == Http11 then "HTTP/1.1" else "HTTP/1.0"
  }

  /** One header field as it goes over the wire, its line end left off. */
  function FieldLine(f: Field): string
  {
    f.0 + ": " + f.1
  }

  function FieldLines(fields: seq<Field>): string
    decreases |fields|
  {
    if fields == [] then "" else FieldLine(fields[0]) + CRLF + FieldLines(fields[1..])
  }

  function VersionOf(code: int): Version
  {
    if code == 101 then Http11 else if code == 100 then Http10 else NoVersion
  }

  /** unordered_map::emplace: the first value for a key wins. */
  function Emplace(m: HeaderMap, field: string, value: string): HeaderMap
  {
    if field in m then m else m[field := value]
  }

  function EmplaceAll(m: HeaderMap, fields: seq<Field>): HeaderMap
    decreases |fields|
  {
    if fields == [] then m else EmplaceAll(Emplace(m, fields[0].0, fields[0].1), fields[1..])
  }

  function ToLower(c: char): char
  {
    if 'A' <= c <= 'Z' then (c as int + 32) as char else c
  }

  /** `!strncasecmp(value.c_str(), word, value.size())`: any prefix of the word matches. */
  predicate MatchesNoCase(value: string, word: string)
  {
    if value == "" then true
    else if word == "" then value[0] == '\0'
    else ToLower(value[0]) == ToLower(word[0]) && MatchesNoCase(value[1..], word[1..])
  }

  /** The comparison is bounded by the value's length: every prefix of the word matches, the empty
      one included, and nothing else does. */
  lemma {:induction false} MatchesPrefixes(value: string, word: string)
    requires '\0' !in value
    ensures MatchesNoCase(value, word) <==> |value| <= |word| && forall i :: 0 <= i < |value| ==> ToLower(value[i]) == ToLower(word[i])
  {
    hide ToLower;
    if value != "" && word != "" {
      MatchesPrefixes(value[1..], word[1..]);
      assert forall i :: 0 < i < |value| && i < |word| ==> value[i] == value[1..][i - 1] && word[i] == word[1..][i - 1];
    }
  }
}
