/** The in-place parser of an HTTP request: `strtok` cuts the buffer up, and the parts are copied into the session. */
module RestRequest {
  import opened Wrappers
  import ModuleMgr

  const NUL := '\0'
  const MAX_STRING_LENGTH := 128
  const MAX_HTTP_BUFFER_LENGTH := 2048
  const AGENT_SW_NAME := "broadview"
  const TWIN_CRLF := "\r\n\r\n"
  const SUPPORTED_METHODS := ["GET", "POST", "PUT", "DELETE"]

  // ---------------------------------------------------------------- C strings in a buffer

  /** The buffer ends in a NUL. */
  predicate Terminated(s: seq<char>) {
    s != [] && s[|s| - 1] == NUL
  }

  /** The first position at or after `p` that holds a NUL or, with `spaces`, a blank. */
  function Stop(s: seq<char>, p: nat, spaces: bool): (e: nat)
    requires p <= |s|
    ensures p <= e <= |s|
    ensures e < |s| ==> s[e] == NUL || (spaces && s[e] == ' ')
    ensures forall i | p <= i < e :: s[i] != NUL && (spaces ==> s[i] != ' ')
    ensures Terminated(s) && p < |s| ==> e < |s|
    decreases |s| - p
  {
    if p == |s| || s[p] == NUL || (spaces && s[p] == ' ') then p else Stop(s, p + 1, spaces)
  }

  function SkipSpaces(s: seq<char>, p: nat): (a: nat)
    requires p <= |s|
    ensures p <= a <= |s| && (a < |s| ==> s[a] != ' ')
    ensures forall i | p <= i < a :: s[i] == ' '
    decreases |s| - p
  {
    if p < |s| && s[p] == ' ' then SkipSpaces(s, p + 1) else p
  }

  /** The C string at `p`. */
  function CStr(s: seq<char>, p: nat): string
    requires p <= |s|
  {
    s[p..Stop(s, p, false)]
  }

  /** Where `strtok` finds a token: its start and its end. */
  function Token(s: seq<char>, p: nat): (t: Option<(nat, nat)>)
    requires p <= |s|
    ensures t.Some? ==> p <= t.value.0 < t.value.1 <= |s| && (Terminated(s) ==> t.value.1 < |s|)
  {
    var a := SkipSpaces(s, p);
    if a == |s| || s[a] == NUL then None else Some((a, Stop(s, a, true)))
  }

  /** `strtok` ends the token with a NUL if it does not end the text. */
  function Cut(s: seq<char>, e: nat): (s': seq<char>)
    ensures |s'| == |s| && (Terminated(s) ==> Terminated(s'))
  {
    if e < |s| && s[e] == ' ' then s[e := NUL] else s
  }

  predicate OccursAt(text: string, pat: string, i: nat) {
    i + |pat| <= |text| && text[i..i + |pat|] == pat
  }

  predicate Occurs(text: string, pat: string) {
    exists i: nat :: i <= |text| && OccursAt(text, pat, i)
  }

  /** `strstr`, as the position of the first occurrence at or after `k`. */
  function Find(text: string, pat: string, k: nat): (r: Option<nat>)
    requires k <= |text|
    ensures r.Some? ==> k <= r.value && OccursAt(text, pat, r.value)
    ensures r.Some? ==> forall i | k <= i < r.value :: !OccursAt(text, pat, i)
    ensures r.None? ==> forall i: nat | k <= i <= |text| :: !OccursAt(text, pat, i)
    decreases |text| - k
  {
    if OccursAt(text, pat, k) then Some(k) else if k == |text| then None else Find(text, pat, k + 1)
  }

  /** `strtok` with the blank as its only delimiter. */
  method Strtok(buf: array<char>, p: nat) returns (token: Option<nat>)
    requires p <= buf.Length
    modifies buf
    ensures (var t := Token(old(buf[..]), p);
             if t.None? then token == None && buf[..] == old(buf[..])
             else token == Some(t.value.0) && buf[..] == Cut(old(buf[..]), t.value.1))
  {
    ghost var s := buf[..];
    var a := p;
    while a < buf.Length && buf[a] == ' '
      invariant p <= a <= buf.Length && buf[..] == s && SkipSpaces(s, p) == SkipSpaces(s, a)
    {
      a := a + 1;
    }
    if a == buf.Length || buf[a] == NUL {
      return None;
    }
    var e := a;
    while e < buf.Length && buf[e] != ' ' && buf[e] != NUL
      invariant a <= e <= buf.Length && buf[..] == s && Stop(s, a, true) == Stop(s, e, true)
    {
      e := e + 1;
    }
    if e < buf.Length && buf[e] == ' ' {
      buf[e] := NUL;
    }
    token := Some(a);
  }

  // ---------------------------------------------------------------- the parts of a request

  predicate Supported(httpMethod: string) {
    httpMethod in SUPPORTED_METHODS
  }

  lemma SupportedMeans(httpMethod: string)
    ensures Supported(httpMethod) <==> httpMethod in SUPPORTED_METHODS
    ensures Supported(httpMethod)
       <==> httpMethod == "GET" || httpMethod == "POST" || httpMethod == "PUT" || httpMethod == "DELETE"
  {
    assert SUPPORTED_METHODS == ["GET", "POST", "PUT", "DELETE"];
    assert SUPPORTED_METHODS[0] == "GET" && SUPPORTED_METHODS[1] == "POST";
    assert SUPPORTED_METHODS[2] == "PUT" && SUPPORTED_METHODS[3] == "DELETE";
  }

  /** `rest_validate_http_method`. */
  method ValidateHttpMethod(httpMethod: string) returns (valid: bool)
    ensures valid <==> Supported(httpMethod)
    ensures valid <==> httpMethod == "GET" || httpMethod == "POST" || httpMethod == "PUT" || httpMethod == "DELETE"
  {
    SupportedMeans(httpMethod);
    hide Supported;
    for i := 0 to |SUPPORTED_METHODS|
      invariant httpMethod !in SUPPORTED_METHODS[..i]
    {
      if httpMethod == SUPPORTED_METHODS[i] {
        return true;
      }
    }
    return false;
  }

  /** Where the REST method starts: after the last slash of the first `n` characters that does not end the URL. */
  function MethodStart(url: string, n: nat): (k: nat)
    requires n <= |url|
    ensures k <= n && (k > 0 ==> url[k - 1] == '/' && k < |url|)
    ensures forall i | k <= i < n && i < |url| - 1 :: url[i] != '/'
  {
    if n == 0 then 0 else if url[n - 1] == '/' && n < |url| then n else MethodStart(url, n - 1)
  }

  function RestMethodOf(url: string): string {
    url[MethodStart(url, |url|)..]
  }

  method RestMethodStart(url: string) returns (start: nat)
    ensures start == MethodStart(url, |url|)
    ensures start == 0 || (start < |url| && url[start - 1] == '/')
    ensures forall i | start <= i < |url| - 1 :: url[i] != '/'
  {
    start := 0;
    for temp := 0 to |url|
      invariant start == MethodStart(url, temp)
    {
      if url[temp] == '/' {
        if temp < |url| - 1 {
          start := temp + 1;
        }
      }
    }
  }

  /** What a URL has to contain. */
  function Command(featureName: string, restMethod: string): string {
    if featureName != "" then AGENT_SW_NAME + "/" + featureName + "/" + restMethod else AGENT_SW_NAME + "/" + restMethod
  }

  /** The URL belongs to a registered REST method and names its feature. */
  predicate ValidUrl(modules: seq<ModuleMgr.ModuleInfo>, url: string) {
    match ModuleMgr.FeatureOf(modules, RestMethodOf(url))
    case None => false
    case Some(featureName) => Find(url, Command(featureName, RestMethodOf(url)), 0).Some?
  }

  // ---------------------------------------------------------------- the parser

  datatype Parsed = Parsed(httpMethod: string, url: string, json: nat, buffer: seq<char>)

  /**
   The whole parser on values. Each step goes on from the length of the last part, not from where it ended,
   so it relies on there being a single blank.
   */
  function Parse(s: seq<char>, modules: seq<ModuleMgr.ModuleInfo>): (r: Option<Parsed>)
    requires Terminated(s)
    ensures r.Some? ==> |r.value.buffer| == |s| && r.value.json <= |s|
  {
    match Token(s, 0)
    case None => None
    case Some((a, e)) =>
      if !Supported(s[a..e]) then None else ParseUrl(Cut(s, e), s[a..e], e - a + 1, modules)
  }

  function ParseUrl(s: seq<char>, httpMethod: string, p: nat, modules: seq<ModuleMgr.ModuleInfo>): (r: Option<Parsed>)
    requires Terminated(s) && p <= |s|
    ensures r.Some? ==> |r.value.buffer| == |s| && r.value.json <= |s|
  {
    match Token(s, p)
    case None => None
    case Some((a, e)) =>
      if !ValidUrl(modules, s[a..e]) then None else ParseBody(Cut(s, e), httpMethod, s[a..e], p + (e - a) + 1)
  }

  /** What follows the buffer in the session is zero, so a text that starts at its very end is empty. */
  function ParseBody(s: seq<char>, httpMethod: string, url: string, p: nat): (r: Option<Parsed>)
    requires p <= |s|
    ensures r.Some? ==> |r.value.buffer| == |s| && r.value.json <= |s|
  {
    match Find(CStr(s, p), TWIN_CRLF, 0)
    case None => None
    case Some(j) => Some(Parsed(httpMethod, url, p + j + |TWIN_CRLF|, s))
  }

  /** At most `MAX_STRING_LENGTH` characters are kept. */
  function Kept128(s: string): string {
    if |s| <= MAX_STRING_LENGTH then s else s[..MAX_STRING_LENGTH]
  }

  /** The fields of a session hold the first 128 characters. */
  lemma FieldIsCut(s: string)
    ensures Kept128(s) <= s && |Kept128(s)| == if |s| < 128 then |s| else 128
  {
  }

  class Session {
    const buffer: array<char>
    var length: int
    var httpMethod: string
    var url: string
    var restMethod: string
    var json: nat

    ghost predicate Valid()
      reads buffer
    {
      buffer.Length == MAX_HTTP_BUFFER_LENGTH + 1 && buffer[MAX_HTTP_BUFFER_LENGTH] == NUL
    }

    /** A cleared session into which the bytes `request` have been read. */
    constructor (request: seq<char>)
      requires |request| <= MAX_HTTP_BUFFER_LENGTH
      ensures Valid() && fresh(buffer) && buffer.Length == 2049 && length == |request|
      ensures buffer[..] == request + Zeros(MAX_HTTP_BUFFER_LENGTH + 1 - |request|)
    {
      var n := |request|;
      buffer := new char[MAX_HTTP_BUFFER_LENGTH + 1](i requires 0 <= i => if i < n then request[i] else NUL);
      length, httpMethod, url, restMethod, json := n, "", "", "", 0;
      new;
      assert buffer[..] == request + Zeros(MAX_HTTP_BUFFER_LENGTH + 1 - n);
    }

    /** `rest_parse_http_request_to_session`. */
    method ParseHttpRequest(modules: seq<ModuleMgr.ModuleInfo>) returns (success: bool)
      requires Valid()
      modifies this, buffer
      ensures Valid()
      ensures success <==> Parse(old(buffer[..]), modules).Some?
      ensures !success ==> length == old(length) && json == old(json)
      ensures success ==>
                var r := Parse(old(buffer[..]), modules).value;
                && buffer[..] == r.buffer && json == r.json && length == old(length) - r.json
                && httpMethod == Kept128(r.httpMethod) && url == Kept128(r.url)
                && restMethod == Kept128(RestMethodOf(r.url))
    {
      hide *;
      ghost var s := buffer[..];
      ValidMeans();
      ParseUnfolds(s, modules);
      var buf := 0;
      var token := Strtok(buffer, buf);
      ValidMeans();
      if token.None? {
        return false;
      }
      TokenText(s, buf);
      var methodText := CStr(buffer[..], token.value);
      var valid := ValidateHttpMethod(methodText);
      if !valid {
        return false;
      }
      buf := buf + |methodText| + 1;
      ghost var s1 := buffer[..];
      ParseUrlUnfolds(s1, methodText, buf, modules);
      token := Strtok(buffer, buf);
      ValidMeans();
      if token.None? {
        return false;
      }
      TokenText(s1, buf);
      var urlText := CStr(buffer[..], token.value);
      var start := RestMethodStart(urlText);
      if !ValidUrl(modules, urlText) {
        return false;
      }
      buf := buf + |urlText| + 1;
      ParseBodyUnfolds(buffer[..], methodText, urlText, buf);
      var found := Find(CStr(buffer[..], buf), TWIN_CRLF, 0);
      if found.None? {
        return false;
      }
      ghost var end := buffer[..];
      assert Parse(s, modules) == Some(Parsed(methodText, urlText, buf + found.value + |TWIN_CRLF|, end));
      json := buf + found.value + |TWIN_CRLF|;
      httpMethod := Kept128(methodText);
      url := Kept128(urlText);
      restMethod := Kept128(urlText[start..]);
      length := length - json;
      success := true;
    }

    lemma ValidMeans()
      ensures Valid() <==> buffer.Length == MAX_HTTP_BUFFER_LENGTH + 1 && Terminated(buffer[..])
      ensures MAX_HTTP_BUFFER_LENGTH > 0
    {
    }
  }

  lemma ParseUnfolds(s: seq<char>, modules: seq<ModuleMgr.ModuleInfo>)
    requires Terminated(s)
    ensures Parse(s, modules)
         == match Token(s, 0)
            case None => None
            case Some((a, e)) =>
              if !Supported(s[a..e]) then None else ParseUrl(Cut(s, e), s[a..e], e - a + 1, modules)
    ensures Token(s, 0).Some? ==> Terminated(Cut(s, Token(s, 0).value.1))
  {
    hide Token, Cut, Supported, ParseUrl;
  }

  lemma ParseUrlUnfolds(s: seq<char>, httpMethod: string, p: nat, modules: seq<ModuleMgr.ModuleInfo>)
    requires Terminated(s) && p <= |s|
    ensures ParseUrl(s, httpMethod, p, modules)
         == match Token(s, p)
            case None => None
            case Some((a, e)) =>
              if !ValidUrl(modules, s[a..e]) then None else ParseBody(Cut(s, e), httpMethod, s[a..e], p + (e - a) + 1)
    ensures Token(s, p).Some? ==>
              var t := Token(s, p).value;
              RestMethodOf(s[t.0..t.1]) == s[t.0..t.1][MethodStart(s[t.0..t.1], t.1 - t.0)..]
  {
    hide Token, Cut, ValidUrl, ParseBody, MethodStart;
  }

  lemma ParseBodyUnfolds(s: seq<char>, httpMethod: string, url: string, p: nat)
    requires p <= |s|
    ensures ParseBody(s, httpMethod, url, p)
         == match Find(CStr(s, p), TWIN_CRLF, 0)
            case None => None
            case Some(j) => Some(Parsed(httpMethod, url, p + j + |TWIN_CRLF|, s))
  {
    hide Find, CStr;
  }

  function Zeros(n: nat): (z: seq<char>)
    ensures |z| == n && forall i | 0 <= i < n :: z[i] == NUL
  {
    seq(n, _ => NUL)
  }

  /** The token, once cut, is the C string at its start. */
  lemma TokenText(s: seq<char>, p: nat)
    requires Terminated(s) && p <= |s| && Token(s, p).Some?
    ensures var t := Token(s, p).value; CStr(Cut(s, t.1), t.0) == s[t.0..t.1]
  {
    var t := Token(s, p).value;
    var s' := Cut(s, t.1);
    assert s'[t.1] == NUL;
    StopIs(s', t.0, t.1, false);
    assert s'[t.0..t.1] == s[t.0..t.1];
  }

  lemma {:induction false} StopIs(s: seq<char>, p: nat, e: nat, spaces: bool)
    requires p <= e < |s| && (s[e] == NUL || (spaces && s[e] == ' '))
    requires forall i | p <= i < e :: s[i] != NUL && (spaces ==> s[i] != ' ')
    ensures Stop(s, p, spaces) == e
    decreases e - p
  {
    if p < e {
      StopIs(s, p + 1, e, spaces);
    }
  }

  // ---------------------------------------------------------------- round trip

  predicate IsWord(s: string) {
    s != "" && forall i | 0 <= i < |s| :: s[i] != ' ' && s[i] != NUL
  }

  lemma SupportedIsWord(httpMethod: string)
    requires Supported(httpMethod)
    ensures IsWord(httpMethod)
  {
    assert IsWord("GET") && IsWord("POST") && IsWord("PUT") && IsWord("DELETE");
  }

  /** The header ends at the first twin line end. */
  predicate EndsHeader(tail: string) {
    && (forall i | 0 <= i < |tail| :: tail[i] != NUL)
    && (forall i | 0 <= i < |tail| :: !OccursAt(tail + TWIN_CRLF, TWIN_CRLF, i))
  }

  function RequestText(httpMethod: string, url: string, tail: string, body: string): string {
    httpMethod + " " + url + " " + tail + TWIN_CRLF + body
  }

  /** A word between `p` and a blank is the token at `p`. */
  lemma TokenIs(s: seq<char>, p: nat, word: string)
    requires IsWord(word) && p + |word| < |s| && s[p..p + |word|] == word && s[p + |word|] == ' '
    ensures Token(s, p) == Some((p, p + |word|))
  {
    assert forall i | p <= i < p + |word| :: s[i] == word[i - p];
    assert s[p] == word[0];
    StopIs(s, p, p + |word|, true);
  }

  /** The twin line end of the header is the first one, whatever the body holds. */
  lemma TwinIsFound(s: seq<char>, p: nat, tail: string)
    requires p <= |s| && EndsHeader(tail) && tail + TWIN_CRLF <= s[p..]
    ensures Find(CStr(s, p), TWIN_CRLF, 0) == Some(|tail|)
  {
    var t, text := tail + TWIN_CRLF, CStr(s, p);
    assert |TWIN_CRLF| == 4 && TWIN_CRLF[0] != NUL && TWIN_CRLF[1] != NUL && TWIN_CRLF[2] != NUL && TWIN_CRLF[3] != NUL;
    forall i | 0 <= i < |t| ensures s[p + i] == t[i] && t[i] != NUL {
      assert s[p..][i] == t[i];
    }
    StopIsLater(s, p, p + |t|);
    assert |text| >= |t| && forall i | 0 <= i < |t| :: text[i] == s[p + i] == t[i];
    assert text[..|t|] == t;
    assert text[|tail|..|tail| + 4] == TWIN_CRLF;
    forall i | 0 <= i < |tail| ensures !OccursAt(text, TWIN_CRLF, i) {
      assert !OccursAt(t, TWIN_CRLF, i);
      assert text[i..i + 4] == t[i..i + 4];
    }
    FindIs(text, TWIN_CRLF, 0, |tail|);
  }

  lemma {:induction false} StopIsLater(s: seq<char>, p: nat, e: nat)
    requires p <= e <= |s| && forall i | p <= i < e :: s[i] != NUL
    ensures Stop(s, p, false) >= e
    decreases e - p
  {
    if p < e {
      StopIsLater(s, p + 1, e);
    }
  }

  lemma {:induction false} FindIs(text: string, pat: string, k: nat, r: nat)
    requires k <= r <= |text| && OccursAt(text, pat, r) && forall i | k <= i < r :: !OccursAt(text, pat, i)
    ensures Find(text, pat, k) == Some(r)
    decreases r - k
  {
    if k < r {
      FindIs(text, pat, k + 1, r);
    }
  }

  /** The buffer after the parser has cut it: blanks after method and URL are NULs. */
  function CutText(httpMethod: string, url: string, rest: seq<char>): seq<char> {
    httpMethod + [NUL] + url + [NUL] + rest
  }

  lemma MethodStep(httpMethod: string, more: seq<char>, modules: seq<ModuleMgr.ModuleInfo>)
    requires Supported(httpMethod) && Terminated(more)
    ensures Terminated(httpMethod + " " + more) && Terminated(httpMethod + [NUL] + more)
    ensures Parse(httpMethod + " " + more, modules)
         == ParseUrl(httpMethod + [NUL] + more, httpMethod, |httpMethod| + 1, modules)
  {
    hide *;
    SupportedIsWord(httpMethod);
    TerminatedConcat(httpMethod + " ", more);
    TerminatedConcat(httpMethod + [NUL], more);
    ParseUnfolds(httpMethod + " " + more, modules);
    WordThenBlank([], httpMethod, more);
    assert [] + httpMethod == httpMethod;
  }

  /** A word and a blank after `front`: the word is the token there, and the cut turns the blank into a NUL. */
  lemma WordThenBlank(front: seq<char>, word: string, more: seq<char>)
    requires IsWord(word) && Terminated(more)
    ensures (var s, p, e := front + word + " " + more, |front|, |front| + |word|;
             && Token(s, p) == Some((p, e))
             && s[p..e] == word
             && Cut(s, e) == front + word + [NUL] + more)
  {
    hide IsWord, Token;
    var s, e := front + word + " " + more, |front| + |word|;
    assert s[|front|..e] == word && s[e] == ' ' && |more| > 0;
    TokenIs(s, |front|, word);
    assert Cut(s, e) == front + word + [NUL] + more;
  }

  lemma UrlStep(front: seq<char>, url: string, more: seq<char>, httpMethod: string, modules: seq<ModuleMgr.ModuleInfo>)
    requires IsWord(url) && Terminated(more) && ValidUrl(modules, url)
    ensures Terminated(front + url + " " + more)
    ensures ParseUrl(front + url + " " + more, httpMethod, |front|, modules)
         == ParseBody(front + url + [NUL] + more, httpMethod, url, |front| + |url| + 1)
  {
    hide *;
    TerminatedConcat(front + url + " ", more);
    ParseUrlUnfolds(front + url + " " + more, httpMethod, |front|, modules);
    WordThenBlank(front, url, more);
  }

  lemma BodyStep(front: seq<char>, tail: string, more: seq<char>, httpMethod: string, url: string)
    requires EndsHeader(tail)
    ensures ParseBody(front + (tail + TWIN_CRLF + more), httpMethod, url, |front|)
         == Some(Parsed(httpMethod, url, |front| + |tail| + |TWIN_CRLF|, front + (tail + TWIN_CRLF + more)))
  {
    hide EndsHeader, CStr, Find;
    var s := front + (tail + TWIN_CRLF + more);
    assert s[|front|..] == tail + TWIN_CRLF + more;
    TwinIsFound(s, |front|, tail);
  }

  /**
   Parsing a request text gives back its method, its URL and its body, for every supported method, every URL
   that is valid for the registered modules, every header and every body.
   */
  lemma ParseInvertsRequestText(httpMethod: string, url: string, tail: string, body: string, padding: nat,
                                modules: seq<ModuleMgr.ModuleInfo>)
    requires Supported(httpMethod) && IsWord(url) && EndsHeader(tail) && ValidUrl(modules, url) && padding > 0
    ensures Terminated(RequestText(httpMethod, url, tail, body) + Zeros(padding))
    ensures (var text := RequestText(httpMethod, url, tail, body);
             var cut := CutText(httpMethod, url, tail + TWIN_CRLF + (body + Zeros(padding)));
             Parse(text + Zeros(padding), modules) == Some(Parsed(httpMethod, url, |text| - |body|, cut)))
  {
    hide *;
    var more := body + Zeros(padding);
    var rest := tail + TWIN_CRLF + more;
    ZerosTerminate(padding);
    TerminatedConcat(body, Zeros(padding));
    TerminatedConcat(tail + TWIN_CRLF, more);
    TerminatedConcat(url + " ", rest);
    RequestForm(httpMethod, url, tail, body, padding);
    MethodStep(httpMethod, url + " " + rest, modules);
    ConcatAssociative(httpMethod + [NUL], url, " " + rest);
    UrlStep(httpMethod + [NUL], url, rest, httpMethod, modules);
    BodyStep(httpMethod + [NUL] + url + [NUL], tail, more, httpMethod, url);
    assert httpMethod + [NUL] + (url + " " + rest) == httpMethod + [NUL] + url + " " + rest;
  }

  lemma ZerosTerminate(n: nat)
    requires n > 0
    ensures Terminated(Zeros(n))
  {
  }

  lemma TerminatedConcat(a: seq<char>, b: seq<char>)
    requires Terminated(b)
    ensures Terminated(a + b)
  {
  }

  lemma RequestForm(httpMethod: string, url: string, tail: string, body: string, padding: nat)
    ensures RequestText(httpMethod, url, tail, body) + Zeros(padding)
         == httpMethod + " " + (url + " " + (tail + TWIN_CRLF + (body + Zeros(padding))))
    ensures |RequestText(httpMethod, url, tail, body)| - |body|
         == |httpMethod + [NUL] + url + [NUL]| + |tail| + |TWIN_CRLF|
    ensures CutText(httpMethod, url, tail + TWIN_CRLF + (body + Zeros(padding)))
         == httpMethod + [NUL] + url + [NUL] + (tail + TWIN_CRLF + (body + Zeros(padding)))
  {
    hide Zeros;
  }

  /** In the cut buffer the body still stands where the parser says, and the session's length becomes the body's. */
  lemma BodyIsKept(httpMethod: string, url: string, tail: string, body: string, padding: nat)
    ensures (var text := RequestText(httpMethod, url, tail, body);
             var json := |text| - |body|;
             && |text| - json == |body|
             && CutText(httpMethod, url, tail + TWIN_CRLF + (body + Zeros(padding)))[json..json + |body|] == body)
  {
    hide Zeros;
  }

  /** A URL made of anything, the agent's name, the feature and a registered REST method without slashes is valid. */
  lemma UrlOfCommandIsValid(modules: seq<ModuleMgr.ModuleInfo>, host: string, featureName: string, restMethod: string)
    requires restMethod != "" && forall i | 0 <= i < |restMethod| :: restMethod[i] != '/'
    requires ModuleMgr.FeatureOf(modules, restMethod) == Some(featureName)
    ensures RestMethodOf(host + Command(featureName, restMethod)) == restMethod
    ensures ValidUrl(modules, host + Command(featureName, restMethod))
  {
    var command := Command(featureName, restMethod);
    var url := host + command;
    var k := |url| - |restMethod|;
    CommandEnds(featureName, restMethod);
    assert url[k..] == restMethod && url[k - 1] == '/';
    forall i | k <= i < |url| ensures url[i] != '/' {
      assert url[i] == restMethod[i - k];
    }
    MethodStartIs(url, k, |url|);
    assert OccursAt(url, command, |host|);
    hide ModuleMgr.FeatureOf, Command, MethodStart;
  }

  lemma CommandEnds(featureName: string, restMethod: string)
    ensures (var c := Command(featureName, restMethod);
             var k := |c| - |restMethod|;
             && k > 0
             && c[k - 1] == '/'
             && c[k..] == restMethod)
  {
    var front := if featureName != "" then AGENT_SW_NAME + "/" + featureName + "/" else AGENT_SW_NAME + "/";
    assert Command(featureName, restMethod) == front + restMethod;
  }

  lemma {:induction false} MethodStartIs(url: string, k: nat, n: nat)
    requires 0 < k <= n <= |url| && k < |url| && url[k - 1] == '/' && forall i | k <= i < n :: url[i] != '/'
    ensures MethodStart(url, n) == k
    decreases n
  {
    if n > k {
      MethodStartIs(url, k, n - 1);
    }
  }

  /**
   A URL is valid exactly if what follows its last inner slash is a registered method, and the agent's name, the
   feature's name if it has one, and the method occur in it, separated by slashes.
   */
  lemma ValidUrlIff(modules: seq<ModuleMgr.ModuleInfo>, host: string, restMethod: string)
    requires restMethod != "" && forall i | 0 <= i < |restMethod| - 1 :: restMethod[i] != '/'
    ensures (var url, feature := host + "/" + restMethod, ModuleMgr.FeatureOf(modules, restMethod);
             ValidUrl(modules, url)
             <==> && feature.Some?
                  && Occurs(url, if feature.value == "" then "broadview/" + restMethod
                                 else "broadview/" + feature.value + "/" + restMethod))
  {
    var url, k := host + "/" + restMethod, |host| + 1;
    assert url[k - 1] == '/' && forall i | k <= i < |url| :: url[i] == restMethod[i - k];
    assert MethodStart(url, |url|) == k;
    assert RestMethodOf(url) == restMethod;
    hide MethodStart, RestMethodOf, Find, OccursAt, Occurs;
    var feature := ModuleMgr.FeatureOf(modules, restMethod);
    if feature.Some? {
      CommandMeans(feature.value, restMethod);
      FindIff(url, Command(feature.value, restMethod));
    }
  }

  lemma CommandMeans(featureName: string, restMethod: string)
    ensures Command(featureName, restMethod)
         == if featureName == "" then "broadview/" + restMethod else "broadview/" + featureName + "/" + restMethod
  {
    assert AGENT_SW_NAME + "/" == "broadview/";
  }

  lemma FindIff(text: string, pat: string)
    ensures Find(text, pat, 0).Some? <==> Occurs(text, pat)
  {
    hide OccursAt;
    if Find(text, pat, 0).Some? {
      assert OccursAt(text, pat, Find(text, pat, 0).value);
      OccursInside(text, pat, Find(text, pat, 0).value);
    }
  }

  lemma OccursInside(text: string, pat: string, i: nat)
    requires OccursAt(text, pat, i)
    ensures i <= |text|
  {
  }

  /** Whatever is parsed starts with a supported method and a blank, holds a valid URL, and has a header that ends. */
  lemma ParsedIsSound(s: seq<char>, modules: seq<ModuleMgr.ModuleInfo>)
    requires Terminated(s)
    ensures match Parse(s, modules)
            case None => true
            case Some(Parsed(httpMethod, url, json, buffer)) =>
              && (httpMethod == "GET" || httpMethod == "POST" || httpMethod == "PUT" || httpMethod == "DELETE")
              && httpMethod < s && (s[|httpMethod|] == ' ' || s[|httpMethod|] == NUL)
              && ValidUrl(modules, url)
              && Occurs(s, url)
              && |buffer| == |s|
              && (forall i | 0 <= i < |s| :: buffer[i] == s[i] || (s[i] == ' ' && buffer[i] == NUL))
              && |httpMethod| + |url| + 6 <= json <= |s| && buffer[json - 4..json] == "\r\n\r\n"
  {
    hide *;
    ParseUnfolds(s, modules);
    StartsWithNoBlank(s, modules);
    if Parse(s, modules).Some? {
      var (a, e) := Token(s, 0).value;
      var s1, p := Cut(s, e), e - a + 1;
      TokenOfStart(s);
      SupportedMeans(s[0..e]);
      CutMeans(s, e);
      ParseUrlUnfolds(s1, s[a..e], p, modules);
      TokenInside(s1, p);
      var (b, f) := Token(s1, p).value;
      var s2, q := Cut(s1, f), p + (f - b) + 1;
      CutMeans(s1, f);
      ParseBodyUnfolds(s2, s[a..e], s1[b..f], q);
      TwinInBuffer(s2, q);
      assert s[..e] == s[0..e];
      UrlInRequest(s, e, b, f);
    }
  }

  lemma StartsWithNoBlank(s: seq<char>, modules: seq<ModuleMgr.ModuleInfo>)
    requires Terminated(s)
    ensures s != [] && (Parse(s, modules).Some? ==> s[0] != ' ')
  {
    hide Parse;
    if s[0] == ' ' {
      LeadingBlankIsRefused(s, modules);
    }
  }

  lemma TokenOfStart(s: seq<char>)
    requires Terminated(s) && s[0] != ' '
    ensures Token(s, 0).Some? ==>
              var (a, e) := Token(s, 0).value;
              a == 0 < e < |s| && (s[e] == ' ' || s[e] == NUL)
  {
  }

  lemma TokenInside(s: seq<char>, p: nat)
    requires Terminated(s) && p <= |s|
    ensures Token(s, p).Some? ==>
              var (b, f) := Token(s, p).value;
              p <= b < f < |s| && forall i | b <= i < f :: s[i] != NUL
  {
  }

  lemma CutMeans(s: seq<char>, e: nat)
    ensures |Cut(s, e)| == |s| && (Terminated(s) ==> Terminated(Cut(s, e)))
    ensures forall i | 0 <= i < |s| :: Cut(s, e)[i] == s[i] || (s[i] == ' ' && Cut(s, e)[i] == NUL)
  {
  }

  /** The URL is a part of the request, since the cut after the method has put a NUL there. */
  lemma UrlInRequest(s: seq<char>, e: nat, b: nat, f: nat)
    requires b <= f <= |s| && forall i | b <= i < f :: Cut(s, e)[i] != NUL
    ensures Occurs(s, Cut(s, e)[b..f])
  {
    assert Cut(s, e)[b..f] == s[b..f];
    assert OccursAt(s, Cut(s, e)[b..f], b);
  }

  lemma TwinInBuffer(s: seq<char>, q: nat)
    requires q <= |s|
    ensures Find(CStr(s, q), TWIN_CRLF, 0).Some? ==>
              var json := q + Find(CStr(s, q), TWIN_CRLF, 0).value + |TWIN_CRLF|;
              && |TWIN_CRLF| == 4 && q + 4 <= json <= |s| && s[json - 4..json] == "\r\n\r\n"
  {
    var text := CStr(s, q);
    var found := Find(text, TWIN_CRLF, 0);
    if found.Some? {
      var j := found.value;
      assert OccursAt(text, TWIN_CRLF, j);
      assert text[j..j + 4] == s[q + j..q + j + 4];
    }
  }

  // ---------------------------------------------------------------- a request as a client sends it

  const REPORT_URL := "/broadview/bst/get-bst-report"
  const HTTP_LINE := "HTTP/1.1"

  lemma ReportUrlIsValid(modules: seq<ModuleMgr.ModuleInfo>)
    requires ModuleMgr.FeatureOf(modules, "get-bst-report") == Some("bst")
    ensures ValidUrl(modules, REPORT_URL) && RestMethodOf(REPORT_URL) == "get-bst-report"
  {
    assert REPORT_URL == "/" + Command("bst", "get-bst-report");
    hide Command, RestMethodOf, ValidUrl, ModuleMgr.FeatureOf;
    UrlOfCommandIsValid(modules, "/", "bst", "get-bst-report");
  }

  lemma ReportUrlIsWord()
    ensures IsWord(REPORT_URL)
  {
  }

  lemma HttpLineEndsHeader()
    ensures EndsHeader(HTTP_LINE)
  {
    var text := HTTP_LINE + TWIN_CRLF;
    assert TWIN_CRLF[0] == '\r' && |TWIN_CRLF| == 4;
    forall i | 0 <= i < |HTTP_LINE| ensures !OccursAt(text, TWIN_CRLF, i) {
      assert text[i] == HTTP_LINE[i];
      if i + 4 <= |text| {
        assert text[i..i + 4][0] == text[i];
      }
    }
  }

  /** The request for a report, with any body, is parsed, and the body is found. */
  lemma ReportRequestIsParsed(body: string, padding: nat, modules: seq<ModuleMgr.ModuleInfo>)
    requires padding > 0 && ModuleMgr.FeatureOf(modules, "get-bst-report") == Some("bst")
    ensures (var s := "POST" + " " + "/broadview/bst/get-bst-report" + " " + "HTTP/1.1" + "\r\n\r\n" + body
                      + Zeros(padding);
             && Terminated(s)
             && match Parse(s, modules)
                case Some(Parsed(httpMethod, url, json, buffer)) =>
                  && httpMethod == "POST" && url == "/broadview/bst/get-bst-report"
                  && RestMethodOf(url) == "get-bst-report"
                  && json + |body| <= |buffer| && buffer[json..json + |body|] == body
                case None => false)
  {
    hide *;
    RequestTextIs(body);
    SupportedMeans("POST");
    ReportUrlIsValid(modules);
    ReportUrlIsWord();
    HttpLineEndsHeader();
    ParseInvertsRequestText("POST", REPORT_URL, HTTP_LINE, body, padding, modules);
    BodyIsKept("POST", REPORT_URL, HTTP_LINE, body, padding);
    RequestForm("POST", REPORT_URL, HTTP_LINE, body, padding);
  }

  lemma RequestTextIs(body: string)
    ensures REPORT_URL == "/broadview/bst/get-bst-report"
    ensures RequestText("POST", REPORT_URL, HTTP_LINE, body)
         == "POST" + " " + "/broadview/bst/get-bst-report" + " " + "HTTP/1.1" + "\r\n\r\n" + body
  {
  }

  // ---------------------------------------------------------------- single blanks are needed

  predicate AllBlank(b: seq<char>) {
    forall i | 0 <= i < |b| :: b[i] == ' '
  }

  lemma {:induction false} TokenAfterBlanks(s: seq<char>, p: nat, a: nat, word: string)
    requires p <= a && IsWord(word) && a + |word| < |s| && s[a..a + |word|] == word && s[a + |word|] == ' '
    requires forall i | p <= i < a :: s[i] == ' '
    ensures Token(s, p) == Some((a, a + |word|))
    decreases a - p
  {
    TokenIs(s, a, word);
    assert s[a] == word[0];
    if p < a {
      TokenAfterBlanks(s, p + 1, a, word);
    }
  }

  /** The last `n` characters of `url`, or all of them. */
  function End(url: string, n: nat): string {
    url[if n < |url| then |url| - n else 0..]
  }

  /** A C string with blanks in front holds a twin line end exactly if it does without them. */
  lemma {:induction false} BlanksHoldNoTwin(blanks: seq<char>, text: string)
    requires AllBlank(blanks)
    ensures Find(blanks + text, TWIN_CRLF, 0).Some? <==> Find(text, TWIN_CRLF, 0).Some?
  {
    var all, n := blanks + text, |blanks|;
    assert |TWIN_CRLF| == 4 && TWIN_CRLF[0] == '\r';
    forall i: nat | i <= |text| ensures OccursAt(all, TWIN_CRLF, n + i) <==> OccursAt(text, TWIN_CRLF, i) {
      if i + 4 <= |text| {
        assert all[n + i..n + i + 4] == text[i..i + 4];
      }
    }
    forall i: nat | i < n ensures !OccursAt(all, TWIN_CRLF, i) {
      if i + 4 <= |all| {
        assert all[i..i + 4][0] == ' ';
      }
    }
    if Find(all, TWIN_CRLF, 0).Some? {
      assert OccursAt(text, TWIN_CRLF, Find(all, TWIN_CRLF, 0).value - n);
    }
    if Find(text, TWIN_CRLF, 0).Some? {
      assert OccursAt(all, TWIN_CRLF, n + Find(text, TWIN_CRLF, 0).value);
    }
  }

  /** What the search sees of a URL that was cut off at its end: too few characters, for each blank but one. */
  lemma SearchedText(front: seq<char>, blanks: seq<char>, url: string, more: seq<char>)
    requires AllBlank(blanks) && blanks != [] && IsWord(url)
    ensures (var s, p := front + (blanks + url + [NUL] + more), |front| + |url| + 1;
             && p <= |s|
             && (Find(CStr(s, p), TWIN_CRLF, 0).Some? <==> Find(End(url, |blanks| - 1), TWIN_CRLF, 0).Some?))
  {
    var s, p, e := front + (blanks + url + [NUL] + more), |front| + |url| + 1, |front| + |blanks| + |url|;
    var text := blanks + url;
    assert s[e] == NUL && forall i | |front| <= i < e :: s[i] == text[i - |front|];
    StopIs(s, p, e, false);
    assert CStr(s, p) == text[|url| + 1..];
    if |blanks| <= |url| + 1 {
      assert text[|url| + 1..] == End(url, |blanks| - 1);
    } else {
      assert text[|url| + 1..] == blanks[|url| + 1..] + End(url, |blanks| - 1);
      hide Find;
      BlanksHoldNoTwin(blanks[|url| + 1..], End(url, |blanks| - 1));
    }
  }

  /** Blanks and a word after `front`: the word is the token there, and the cut turns the blank after it into a NUL. */
  lemma BlanksThenWord(front: seq<char>, blanks: seq<char>, url: string, more: seq<char>)
    requires AllBlank(blanks) && IsWord(url) && Terminated(more)
    ensures (var s, p, a := front + (blanks + url + " " + more), |front|, |front| + |blanks|;
             && Terminated(s)
             && Token(s, p) == Some((a, a + |url|))
             && s[a..a + |url|] == url
             && Cut(s, a + |url|) == front + (blanks + url + [NUL] + more))
  {
    hide IsWord, Token;
    var s, a := front + (blanks + url + " " + more), |front| + |blanks|;
    assert s[a..a + |url|] == url && s[a + |url|] == ' ' && |more| > 0;
    assert forall i | |front| <= i < a :: s[i] == blanks[i - |front|];
    TokenAfterBlanks(s, |front|, a, url);
    assert Cut(s, a + |url|) == front + (blanks + url + [NUL] + more);
  }

  /**
   With `|blanks| + 1` blanks between method and URL the search for the end of the header starts in the URL, which
   the cut has ended. So the request is parsed if and only if the last `|blanks| - 1` characters of a valid URL hold
   a twin line end themselves.
   */
  lemma ExtraBlanksParseIff(httpMethod: string, blanks: seq<char>, url: string, more: seq<char>,
                            modules: seq<ModuleMgr.ModuleInfo>)
    requires Supported(httpMethod) && IsWord(url) && Terminated(more) && AllBlank(blanks) && blanks != []
    ensures Terminated(httpMethod + " " + (blanks + url + " " + more))
    ensures Parse(httpMethod + " " + (blanks + url + " " + more), modules).Some?
       <==> ValidUrl(modules, url) && Find(End(url, |blanks| - 1), TWIN_CRLF, 0).Some?
  {
    hide *;
    TerminatedConcat(blanks + url + " ", more);
    MethodStep(httpMethod, blanks + url + " " + more, modules);
    var front := httpMethod + [NUL];
    var s := front + (blanks + url + " " + more);
    BlanksThenWord(front, blanks, url, more);
    ParseUrlUnfolds(s, httpMethod, |front|, modules);
    SearchedText(front, blanks, url, more);
    if ValidUrl(modules, url) {
      ParseBodyUnfolds(front + (blanks + url + [NUL] + more), httpMethod, url, |front| + |url| + 1);
    }
  }

  /** So they are refused whenever the URL has no carriage return. */
  lemma ExtraBlanksAreRefused(httpMethod: string, blanks: seq<char>, url: string, more: seq<char>,
                              modules: seq<ModuleMgr.ModuleInfo>)
    requires Supported(httpMethod) && IsWord(url) && Terminated(more) && AllBlank(blanks) && blanks != []
    requires forall i | 0 <= i < |url| :: url[i] != '\r'
    ensures Terminated(httpMethod + " " + (blanks + url + " " + more))
    ensures Parse(httpMethod + " " + (blanks + url + " " + more), modules) == None
  {
    hide *;
    ExtraBlanksParseIff(httpMethod, blanks, url, more, modules);
    NoReturnNoTwin(url, |blanks| - 1);
  }

  lemma NoReturnNoTwin(url: string, n: nat)
    requires forall i | 0 <= i < |url| :: url[i] != '\r'
    ensures Find(End(url, n), TWIN_CRLF, 0) == None
  {
    var text := End(url, n);
    assert TWIN_CRLF[0] == '\r' && forall i | 0 <= i < |text| :: text[i] == url[|url| - |text| + i];
    forall i: nat | i <= |text| ensures !OccursAt(text, TWIN_CRLF, i) {
      if i + 4 <= |text| {
        assert text[i..i + 4][0] == text[i];
      }
    }
  }

  /** A request that starts with a blank is refused: the search for the URL starts inside the method, or before it. */
  lemma LeadingBlankIsRefused(s: seq<char>, modules: seq<ModuleMgr.ModuleInfo>)
    requires Terminated(s) && s[0] == ' '
    ensures Parse(s, modules) == None
  {
    hide *;
    ParseUnfolds(s, modules);
    TokenStopsBlank(s);
    if Token(s, 0).Some? {
      var (a, e) := Token(s, 0).value;
      if Supported(s[a..e]) {
        var s', p := Cut(s, e), e - a + 1;
        ParseUrlUnfolds(s', s[a..e], p, modules);
        if Token(s', p).Some? {
          var u := Token(s', p).value;
          MethodHasNoSlash(s[a..e]);
          UrlInMethod(s, a, e, p);
          SlashlessIsInvalid(modules, s'[u.0..u.1]);
        }
      }
    }
  }

  lemma TokenStopsBlank(s: seq<char>)
    requires Terminated(s) && s[0] == ' '
    ensures Token(s, 0).Some? ==>
              var (a, e) := Token(s, 0).value;
              && 0 < a < e < |s|
              && (s[e] == NUL || s[e] == ' ')
              && Terminated(Cut(s, e))
              && forall i | 0 <= i < a :: s[i] == ' '
  {
  }

  /** What is taken for the URL ends where the method ends, so it has no slash. */
  lemma UrlInMethod(s: seq<char>, a: nat, e: nat, p: nat)
    requires a < e < |s| && p <= e && (s[e] == NUL || s[e] == ' ')
    requires forall i | 0 <= i < a :: s[i] == ' '
    requires forall i | 0 <= i < e - a :: s[a..e][i] != '/'
    ensures Token(Cut(s, e), p).Some? ==>
              var u := Token(Cut(s, e), p).value;
              forall i | 0 <= i < u.1 - u.0 :: Cut(s, e)[u.0..u.1][i] != '/'
  {
    var s' := Cut(s, e);
    if Token(s', p).Some? {
      var u := Token(s', p).value;
      assert s'[e] == NUL && u.1 <= e;
      forall i | u.0 <= i < u.1 ensures s'[i] != '/' {
        assert s'[i] == s[i];
        assert i >= a ==> s[i] == s[a..e][i - a];
      }
    }
  }

  lemma MethodHasNoSlash(httpMethod: string)
    requires Supported(httpMethod)
    ensures forall i | 0 <= i < |httpMethod| :: httpMethod[i] != '/'
  {
  }

  lemma SlashlessIsInvalid(modules: seq<ModuleMgr.ModuleInfo>, url: string)
    requires forall i | 0 <= i < |url| :: url[i] != '/'
    ensures !ValidUrl(modules, url)
  {
    hide RestMethodOf;
    var feature := ModuleMgr.FeatureOf(modules, RestMethodOf(url));
    if feature.Some? {
      var command := Command(feature.value, RestMethodOf(url));
      assert |AGENT_SW_NAME| == 9 && command[9] == '/';
      forall i: nat | i <= |url| ensures !OccursAt(url, command, i) {
        if i + |command| <= |url| {
          assert url[i..i + |command|][9] == url[i + 9];
        }
      }
    }
  }

  /**
   With any number of blanks before the method and in between, a method and a valid URL are parsed exactly if there
   are none before and one in between, or the surplus ones let the search for the end of the header find a twin line
   end within the URL.
   */
  lemma BlanksParseIff(leading: seq<char>, httpMethod: string, blanks: seq<char>, url: string, tail: string,
                       body: string, padding: nat, modules: seq<ModuleMgr.ModuleInfo>)
    requires Supported(httpMethod) && AllBlank(leading) && AllBlank(blanks) && blanks != [] && padding > 0
    requires IsWord(url) && ValidUrl(modules, url) && EndsHeader(tail)
    ensures (var s := leading + (httpMethod + blanks + (url + " " + (tail + TWIN_CRLF + (body + Zeros(padding)))));
             && Terminated(s)
             && (Parse(s, modules).Some?
                 <==> leading == []
                      && (|blanks| == 1 || Find(End(url, |blanks| - 2), TWIN_CRLF, 0).Some?)))
  {
    var rest := tail + TWIN_CRLF + (body + Zeros(padding));
    var request := httpMethod + blanks + (url + " " + rest);
    BlanksSplit(httpMethod, blanks, url, rest);
    ZerosTerminate(padding);
    if leading != [] {
      assert (leading + request)[0] == ' ';
    }
    hide *;
    TerminatedConcat(body, Zeros(padding));
    TerminatedConcat(tail + TWIN_CRLF, body + Zeros(padding));
    TerminatedConcat(url + " ", rest);
    TerminatedConcat(httpMethod + blanks, url + " " + rest);
    TerminatedConcat(leading, request);
    if leading != [] {
      LeadingBlankIsRefused(leading + request, modules);
    } else {
      assert leading + request == request;
      if |blanks| == 1 {
        RequestForm(httpMethod, url, tail, body, padding);
        ParseInvertsRequestText(httpMethod, url, tail, body, padding, modules);
      } else {
        ExtraBlanksParseIff(httpMethod, blanks[1..], url, rest, modules);
      }
    }
  }

  /** So if the URL has no carriage return, they are parsed exactly if there are none before and one in between. */
  lemma ParsesIffSingleBlank(leading: seq<char>, httpMethod: string, blanks: seq<char>, url: string, tail: string,
                             body: string, padding: nat, modules: seq<ModuleMgr.ModuleInfo>)
    requires Supported(httpMethod) && AllBlank(leading) && AllBlank(blanks) && blanks != [] && padding > 0
    requires IsWord(url) && ValidUrl(modules, url) && forall i | 0 <= i < |url| :: url[i] != '\r'
    requires EndsHeader(tail)
    ensures (var s := leading + (httpMethod + blanks + (url + " " + (tail + TWIN_CRLF + (body + Zeros(padding)))));
             Terminated(s) && (Parse(s, modules).Some? <==> leading == [] && |blanks| == 1))
  {
    hide *;
    BlanksParseIff(leading, httpMethod, blanks, url, tail, body, padding, modules);
    if |blanks| > 1 {
      NoReturnNoTwin(url, |blanks| - 2);
    }
  }

  lemma BlanksSplit(httpMethod: string, blanks: seq<char>, url: string, rest: seq<char>)
    requires AllBlank(blanks) && blanks != []
    ensures |blanks| == 1 ==> httpMethod + blanks + (url + " " + rest) == httpMethod + " " + (url + " " + rest)
    ensures |blanks| > 1 ==>
              && AllBlank(blanks[1..]) && blanks[1..] != []
              && httpMethod + blanks + (url + " " + rest) == httpMethod + " " + (blanks[1..] + url + " " + rest)
  {
    assert blanks == " " + blanks[1..];
    if |blanks| == 1 {
      assert blanks == " ";
    }
  }
}
