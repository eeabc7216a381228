/** The chain of filters a request runs through: `AtmosClient_add_default_filters` and the filters
    it adds. Every filter works on the request and calls the next one; an operation's own filters
    are put in front of the default ones. */
module FilterChain {
  import opened CStrings
  import opened Rest
  import opened Canonical

  const ATMOS_HEADER_UID := "x-emc-uid"
  const ATMOS_HEADER_SIGNATURE := "x-emc-signature"

  /** What the default filters take from outside: the client's uid, the clock, the keyed hash of
      `AtmosClient_sign`, and the lines rest-client-c derives from the body. */
  datatype Env = Env(uid: string, date: string, sign: string -> string, contentHeaders: Request -> seq<string>)

  datatype Filter =
    | ExecuteCurlRequest
    | SignRequest
    | SetContentHeaders
    | AddUid
    | AddDate
    | ParseAtmosError
    | Operation(act: Request -> Option<Request>) // any change to the request, or an early return

  datatype Event = Signed(request: Request) | Sent(request: Request)

  function WithLines(r: Request, lines: seq<string>): Request { r.(headers := r.headers + lines) }

  function UidLine(env: Env): string { Truncate(ATMOS_HEADER_UID + ":" + env.uid, ATMOS_SIMPLE_HEADER_MAX) }

  function DateLine(env: Env): string { Truncate(HTTP_HEADER_DATE + ":" + env.date, ATMOS_SIMPLE_HEADER_MAX) }

  function SignatureLine(env: Env, r: Request): string {
    Truncate(ATMOS_HEADER_SIGNATURE + ":" + env.sign(StringToSign(r)), ATMOS_SIMPLE_HEADER_MAX)
  }

  // ---------------------------------------------------------------- building a chain

  /** `RestFilter_add`: the new filter runs before the others. */
  function Add(chain: seq<Filter>, f: Filter): seq<Filter> { [f] + chain }

  const DEFAULTS: seq<Filter> := [ParseAtmosError, AddDate, AddUid, SetContentHeaders, SignRequest, ExecuteCurlRequest]

  method AddDefaultFilters(chain0: seq<Filter>) returns (chain: seq<Filter>)
    ensures chain == DEFAULTS + chain0
  {
    chain := Add(chain0, ExecuteCurlRequest);
    chain := Add(chain, SignRequest);
    chain := Add(chain, SetContentHeaders);
    chain := Add(chain, AddUid);
    chain := Add(chain, AddDate);
    chain := Add(chain, ParseAtmosError);
  }

  /** How every `AtmosClient_*` call builds its chain. */
  method BuildChain(operations: seq<Request -> Option<Request>>) returns (chain: seq<Filter>)
    ensures chain == OperationFilters(operations) + DEFAULTS
  {
    chain := AddDefaultFilters([]);
    var i := 0;
    assert operations[..0] == [];
    while i < |operations|
      invariant 0 <= i <= |operations|
      invariant chain == OperationFilters(operations[..i]) + DEFAULTS
    {
      assert operations[..i + 1][..i] == operations[..i];
      chain := Add(chain, Operation(operations[i]));
      i := i + 1;
    }
    assert operations[..i] == operations;
  }

  /** The filters in the order they run: the one added last comes first. */
  function OperationFilters(operations: seq<Request -> Option<Request>>): seq<Filter> {
    if operations == [] then []
    else [Operation(operations[|operations| - 1])] + OperationFilters(operations[..|operations| - 1])
  }

  /** What was added last runs first. */
  lemma {:induction false} LastAddedFirst(operations: seq<Request -> Option<Request>>, i: nat)
    requires i < |operations|
    ensures |OperationFilters(operations)| == |operations|
    ensures OperationFilters(operations)[i] == Operation(operations[|operations| - 1 - i])
    decreases |operations|
  {
    var before := operations[..|operations| - 1];
    if before == [] {
      assert OperationFilters(before) == [];
    } else {
      LastAddedFirst(before, if i > 0 then i - 1 else 0);
    }
  }

  // ---------------------------------------------------------------- running a chain

  /** What an observer sees of one filter. */
  function Noted(f: Filter, r: Request): seq<Event> {
    match f
    case ExecuteCurlRequest => [Sent(r)]
    case SignRequest => [Signed(r)]
    case _ => []
  }

  /** The request a filter hands on; None when it does not call the next filter. */
  function HandedOn(f: Filter, r: Request, env: Env): Option<Request> {
    match f
    case ExecuteCurlRequest => None
    case SignRequest => Some(WithLines(r, [SignatureLine(env, r)]))
    case SetContentHeaders => Some(WithLines(r, env.contentHeaders(r)))
    case AddUid => Some(WithLines(r, [UidLine(env)]))
    case AddDate => Some(WithLines(r, [DateLine(env)]))
    case ParseAtmosError => Some(r)
    case Operation(act) => act(r)
  }

  function Run(chain: seq<Filter>, r: Request, env: Env): seq<Event> {
    if chain == [] then []
    else
      var next := HandedOn(chain[0], r, env);
      Noted(chain[0], r) + if next.Some? then Run(chain[1..], next.value, env) else []
  }

  ghost predicate GoodLine(line: string) { NulFree(line) && ':' in line }

  /** Operations and environment produce headers that are C strings with a colon. */
  ghost predicate Sound(chain: seq<Filter>, env: Env) {
    && NulFree(env.uid) && NulFree(env.date) && (forall s :: NulFree(env.sign(s)))
    && (forall r, l :: l in env.contentHeaders(r) ==> GoodLine(l))
    && (forall f, r :: f in chain && f.Operation? && WellFormed(r) && f.act(r).Some? ==> WellFormed(f.act(r).value))
  }

  lemma ShortPrefixStays(name: string, value: string)
    requires |name| < 100 && NulFree(name) && NulFree(value)
    ensures GoodLine(Truncate(name + ":" + value, ATMOS_SIMPLE_HEADER_MAX))
    ensures name + ":" <= Truncate(name + ":" + value, ATMOS_SIMPLE_HEADER_MAX)
  {
    var line := Truncate(name + ":" + value, ATMOS_SIMPLE_HEADER_MAX);
    assert line[|name|] == ':';
  }

  lemma StaysWellFormed(r: Request, lines: seq<string>)
    requires WellFormed(r) && forall l :: l in lines ==> GoodLine(l)
    ensures WellFormed(WithLines(r, lines))
  {
  }

  /** One filter at work on the request; `more` says that it calls the next one. */
  method Perform(f: Filter, request: RestRequest, env: Env) returns (events: seq<Event>, more: bool)
    requires Sound([f], env) && WellFormed(request.View())
    modifies request
    ensures events == Noted(f, old(request.View()))
    ensures more == HandedOn(f, old(request.View()), env).Some?
    ensures request.View() == if more then HandedOn(f, old(request.View()), env).value else old(request.View())
    ensures WellFormed(request.View())
  {
    hide StringToSign;
    ghost var r := request.View();
    events, more := [], true;
    match f {
      case ExecuteCurlRequest =>
        events, more := [Sent(request.View())], false;
      case SignRequest =>
        events := [Signed(request.View())];
        var hash := CanonicalizeRequest(request);
        ShortPrefixStays(ATMOS_HEADER_SIGNATURE, env.sign(hash));
        request.AddHeader(Truncate(ATMOS_HEADER_SIGNATURE + ":" + env.sign(hash), ATMOS_SIMPLE_HEADER_MAX));
        StaysWellFormed(r, [SignatureLine(env, r)]);
      case SetContentHeaders =>
        request.headers := request.headers + env.contentHeaders(request.View());
        StaysWellFormed(r, env.contentHeaders(r));
      case AddUid =>
        ShortPrefixStays(ATMOS_HEADER_UID, env.uid);
        request.AddHeader(UidLine(env));
        StaysWellFormed(r, [UidLine(env)]);
      case AddDate =>
        ShortPrefixStays(HTTP_HEADER_DATE, env.date);
        request.AddHeader(DateLine(env));
        StaysWellFormed(r, [DateLine(env)]);
      case ParseAtmosError =>
      case Operation(act) =>
        assert f in [f];
        var changed := act(request.View());
        more := changed.Some?;
        if changed.Some? {
          request.verb, request.uri, request.headers := changed.value.verb, changed.value.uri, changed.value.headers;
        }
    }
  }

  /** The calls from filter to filter, on the request they share; after a request was sent, it is
      still the one that was sent. */
  method Execute(chain: seq<Filter>, request: RestRequest, env: Env) returns (events: seq<Event>)
    requires Sound(chain, env) && WellFormed(request.View())
    modifies request
    ensures events == Run(chain, old(request.View()), env)
    ensures WellFormed(request.View())
    ensures events != [] && events[|events| - 1].Sent? ==> events[|events| - 1].request == request.View()
    decreases |chain|
  {
    hide HandedOn, WellFormed;
    if chain == [] { return []; }
    assert forall f :: f in chain[1..] ==> f in chain;
    assert chain[0] in chain;
    var more;
    events, more := Perform(chain[0], request, env);
    if more {
      var later := Execute(chain[1..], request, env);
      SentIsLast(chain[0], old(request.View()), env, later);
      events := events + later;
    } else {
      assert events + [] == events;
    }
  }

  lemma SentIsLast(f: Filter, r: Request, env: Env, later: seq<Event>)
    requires HandedOn(f, r, env).Some?
    ensures var events := Noted(f, r) + later;
            events != [] && events[|events| - 1].Sent? ==> later != [] && later[|later| - 1] == events[|events| - 1]
  {
  }

  // ---------------------------------------------------------------- what the signature covers

  /** The request after the operations' filters; None if one of them returned early. */
  function AfterOperations(operations: seq<Request -> Option<Request>>, r: Request): Option<Request>
    decreases |operations|
  {
    if operations == [] then Some(r)
    else
      var last := operations[|operations| - 1](r);
      if last.None? then None else AfterOperations(operations[..|operations| - 1], last.value)
  }

  /** Date, uid and content lines are in place when the request is signed. */
  function ToBeSigned(q: Request, env: Env): Request {
    var dated := WithLines(WithLines(q, [DateLine(env)]), [UidLine(env)]);
    WithLines(dated, env.contentHeaders(dated))
  }

  lemma RunDefaults(q: Request, env: Env)
    ensures var d := ToBeSigned(q, env);
            Run(DEFAULTS, q, env) == [Signed(d), Sent(WithLines(d, [SignatureLine(env, d)]))]
  {
    hide SignatureLine, DateLine, UidLine;
    var d := ToBeSigned(q, env);
    var s := WithLines(d, [SignatureLine(env, d)]);
    var c := DEFAULTS;
    assert c[4..][1..] == c[5..] && c[3..][1..] == c[4..] && c[2..][1..] == c[3..] && c[1..][1..] == c[2..];
    var stamped := WithLines(q, [DateLine(env)]);
    var dated := WithLines(stamped, [UidLine(env)]);
    RunQuietly(c, q, q, env);
    RunQuietly(c[1..], q, stamped, env);
    RunQuietly(c[2..], stamped, dated, env);
    RunQuietly(c[3..], dated, d, env);
    assert Run(c[5..], s, env) == [Sent(s)];
    assert Run(c[4..], d, env) == [Signed(d)] + [Sent(s)];
  }

  lemma RunQuietly(chain: seq<Filter>, r: Request, next: Request, env: Env)
    requires chain != [] && Noted(chain[0], r) == [] && HandedOn(chain[0], r, env) == Some(next)
    ensures Run(chain, r, env) == Run(chain[1..], next, env)
  {
  }

  /** The first filter of a chain is an operation's: it returns early or hands on its request. */
  lemma RunOperation(act: Request -> Option<Request>, rest: seq<Filter>, r: Request, env: Env)
    ensures Run([Operation(act)] + rest, r, env) == if act(r).Some? then Run(rest, act(r).value, env) else []
  {
    assert ([Operation(act)] + rest)[1..] == rest;
  }

  lemma {:induction false} RunOperations(operations: seq<Request -> Option<Request>>, r: Request, env: Env)
    ensures Run(OperationFilters(operations) + DEFAULTS, r, env) ==
            var q := AfterOperations(operations, r); if q.None? then [] else Run(DEFAULTS, q.value, env)
    decreases |operations|
  {
    if operations == [] {
      assert OperationFilters(operations) + DEFAULTS == DEFAULTS;
    } else {
      var last, before := operations[|operations| - 1], operations[..|operations| - 1];
      var rest := OperationFilters(before) + DEFAULTS;
      assert OperationFilters(operations) + DEFAULTS == [Operation(last)] + rest;
      RunOperation(last, rest, r, env);
      if last(r).Some? { RunOperations(before, last(r).value, env); }
    }
  }

  /** For every chain a client call can build: either an operation returned early, and nothing is
      signed or sent, or the request is signed once, directly before it is sent, and what is sent is
      what was signed with the signature behind it. */
  lemma SignedThenSent(operations: seq<Request -> Option<Request>>, r: Request, env: Env)
    ensures var events := Run(OperationFilters(operations) + DEFAULTS, r, env);
            var q := AfterOperations(operations, r);
            && (q.None? ==> events == [])
            && (q.Some? ==> var d := ToBeSigned(q.value, env);
                  events == [Signed(d), Sent(WithLines(d, [SignatureLine(env, d)]))])
  {
    RunOperations(operations, r, env);
    var q := AfterOperations(operations, r);
    if q.Some? { RunDefaults(q.value, env); }
  }

  // ---------------------------------------------------------------- what the default filters say

  /** A line with a name that no line before it has answers for that name. */
  lemma AddedLineAnswers(headers: seq<string>, name: string, value: string)
    requires HeaderValue(headers, name) == None && |name + ":" + value| < ATMOS_SIMPLE_HEADER_MAX
    ensures HeaderValue(headers + [Truncate(name + ":" + value, ATMOS_SIMPLE_HEADER_MAX)], name)
        == Some(SkipSpaces(value))
  {
    var line := name + ":" + value;
    assert line[..|name|] == name && line[|name|] == ':' && line[|name| + 1..] == value;
    HeaderValueAppend(headers, [line], name);
  }

  lemma LineAddedIsOther(headers: seq<string>, line: string, name: string, i: nat)
    requires i < |line| && i < |name| && ToLower(line[i]) != ToLower(name[i])
    ensures HeaderValue(headers + [line], name) == HeaderValue(headers, name)
  {
    hide HasName;
    NotNamed(line, name, i);
    var lines: seq<string> := [line];
    NoneNamed(lines, name);
    HeaderValueAppend(headers, lines, name);
  }

  /** The request that is signed names the uid and the date, unless it came with others, and ends with
      the content lines; the date it names is the one in the signed string. */
  lemma DefaultValues(q: Request, env: Env)
    requires |"x-emc-uid" + ":" + env.uid| < ATMOS_SIMPLE_HEADER_MAX
        && |"Date" + ":" + env.date| < ATMOS_SIMPLE_HEADER_MAX
    requires HeaderValue(q.headers, "x-emc-uid") == None && HeaderValue(q.headers, "Date") == None
    ensures var d := ToBeSigned(q, env);
            && HeaderValue(d.headers, "x-emc-uid") == Some(SkipSpaces(env.uid))
            && HeaderValue(d.headers, "Date") == Some(SkipSpaces(env.date)) == Some(Date(d))
            && d.verb == q.verb && d.uri == q.uri && q.headers <= d.headers
            && exists named :: d == WithLines(named, env.contentHeaders(named)) && q.headers <= named.headers
    ensures HeaderValue(WithLines(ToBeSigned(q, env), [SignatureLine(env, ToBeSigned(q, env))]).headers, "x-emc-uid")
            == Some(SkipSpaces(env.uid))
    ensures HeaderValue(WithLines(ToBeSigned(q, env), [SignatureLine(env, ToBeSigned(q, env))]).headers, "Date")
            == Some(SkipSpaces(env.date))
  {
    assert ATMOS_HEADER_UID == "x-emc-uid" && HTTP_HEADER_DATE == "Date";
    var dated := WithLines(q, [DateLine(env)]);
    var named := WithLines(dated, [UidLine(env)]);
    var d := ToBeSigned(q, env);
    assert DateLine(env)[0] == 'D' && UidLine(env)[0] == 'x' && "Date"[0] == 'D' && "x-emc-uid"[0] == 'x';
    hide HeaderValue, SignatureLine, SkipSpaces;
    AddedLineAnswers(q.headers, "Date", env.date);
    LineAddedIsOther(q.headers, DateLine(env), "x-emc-uid", 0);
    AddedLineAnswers(dated.headers, "x-emc-uid", env.uid);
    LineAddedIsOther(dated.headers, UidLine(env), "Date", 0);
    HeaderValueAppend(named.headers, env.contentHeaders(named), "x-emc-uid");
    HeaderValueAppend(named.headers, env.contentHeaders(named), "Date");
    HeaderValueAppend(d.headers, [SignatureLine(env, d)], "x-emc-uid");
    HeaderValueAppend(d.headers, [SignatureLine(env, d)], "Date");
    assert d == WithLines(named, env.contentHeaders(named)) && q.headers <= named.headers;
  }

  // ---------------------------------------------------------------- the server's side

  /** What a server signs: the request it received, without its signature. */
  function WithoutSignature(headers: seq<string>): seq<string> {
    if headers == [] then []
    else if HasName(headers[0], ATMOS_HEADER_SIGNATURE) then WithoutSignature(headers[1..])
    else [headers[0]] + WithoutSignature(headers[1..])
  }

  function Stripped(r: Request): Request { r.(headers := WithoutSignature(r.headers)) }

  function SignatureOf(r: Request): Option<string> { HeaderValue(r.headers, "x-emc-signature") }

  predicate ServerAccepts(received: Request, sign: string -> string) {
    SignatureOf(received) == Some(SkipSpaces(sign(StringToSign(Stripped(received)))))
  }

  /** The keyed hash tells two texts apart. */
  predicate TellsApart(sign: string -> string, a: string, b: string) {
    SkipSpaces(sign(a)) == SkipSpaces(sign(b)) ==> a == b
  }

  /** The signature header is not cut off; 28 characters of base64 are far below the limit. */
  predicate SignatureFits(env: Env, d: Request) {
    |ATMOS_HEADER_SIGNATURE + ":" + env.sign(StringToSign(d))| < ATMOS_SIMPLE_HEADER_MAX
  }

  lemma {:induction false} WithoutSignatureAppend(a: seq<string>, b: seq<string>)
    ensures WithoutSignature(a + b) == WithoutSignature(a) + WithoutSignature(b)
  {
    hide HasName;
    if a == [] {
      assert a + b == b;
    } else {
      assert (a + b)[1..] == a[1..] + b;
      WithoutSignatureAppend(a[1..], b);
    }
  }

  lemma {:induction false} NothingToStrip(headers: seq<string>)
    requires HeaderValue(headers, ATMOS_HEADER_SIGNATURE) == None
    ensures WithoutSignature(headers) == headers
  {
    hide HasName;
    if headers != [] { NothingToStrip(headers[1..]); }
  }

  lemma OneName(header: string, name: string)
    requires HasName(header, ATMOS_HEADER_SIGNATURE) && name != "" && ToLower(name[0]) != 'x'
    ensures !HasName(header, name)
  {
    var n := ATMOS_HEADER_SIGNATURE;
    assert Lower(header[..|n|])[0] == Lower(n)[0] == 'x';
    assert Lower(name)[0] == ToLower(name[0]);
    assert |name| < |header| ==> Lower(header[..|name|])[0] == ToLower(header[0]);
  }

  /** Signature lines answer no other lookup of the signer. */
  lemma {:induction false} StrippedLookup(headers: seq<string>, name: string)
    requires name != "" && ToLower(name[0]) != 'x'
    ensures HeaderValue(WithoutSignature(headers), name) == HeaderValue(headers, name)
  {
    if headers != [] {
      StrippedLookup(headers[1..], name);
      if HasName(headers[0], ATMOS_HEADER_SIGNATURE) {
        OneName(headers[0], name);
      } else {
        assert WithoutSignature(headers)[1..] == WithoutSignature(headers[1..]);
      }
    }
  }

  lemma {:induction false} StrippedWeight(headers: seq<string>)
    ensures EmcWeight(WithoutSignature(headers)) <= EmcWeight(headers)
    ensures HeaderValue(headers, ATMOS_HEADER_SIGNATURE).Some? ==>
              EmcWeight(WithoutSignature(headers)) < EmcWeight(headers) && EmcWeight(headers) > 1
  {
    hide HasName, Line;
    if headers != [] {
      StrippedWeight(headers[1..]);
      if HasName(headers[0], ATMOS_HEADER_SIGNATURE) {
        EmcNamed(headers[0], ATMOS_HEADER_SIGNATURE);
      } else {
        assert WithoutSignature(headers)[1..] == WithoutSignature(headers[1..]);
      }
    }
  }

  lemma StrippedFields(d: Request)
    ensures ContentType(Stripped(d)) == ContentType(d) && Range(Stripped(d)) == Range(d) && Date(Stripped(d)) == Date(d)
  {
    hide HeaderValue;
    StrippedLookup(d.headers, HTTP_HEADER_CONTENT_TYPE);
    StrippedLookup(d.headers, HTTP_HEADER_RANGE);
    StrippedLookup(d.headers, HTTP_HEADER_CONTENT_RANGE);
    StrippedLookup(d.headers, HTTP_HEADER_DATE);
  }

  /** A server that takes the signatures off signs what the client signed exactly when the client
      signed a request without one: every signature line lengthens the string. */
  lemma StrippedSignsAlikeIff(d: Request)
    ensures StringToSign(Stripped(d)) == StringToSign(d) <==> SignatureOf(d) == None
  {
    hide ContentType, Range, Date, StringToSign, HeaderValue, WithoutSignature, EmcWeight;
    if SignatureOf(d) == None {
      NothingToStrip(d.headers);
      assert Stripped(d) == d;
    } else {
      StrippedFields(d);
      StrippedWeight(d.headers);
      HeavierIsLonger(Stripped(d), d);
    }
  }

  lemma SignatureValue(env: Env, d: Request)
    requires SignatureFits(env, d)
    ensures HasName(SignatureLine(env, d), ATMOS_HEADER_SIGNATURE)
    ensures HeaderValue([SignatureLine(env, d)], ATMOS_HEADER_SIGNATURE) == Some(SkipSpaces(env.sign(StringToSign(d))))
  {
    hide StringToSign;
    var n, v := ATMOS_HEADER_SIGNATURE, env.sign(StringToSign(d));
    var line := n + ":" + v;
    assert SignatureLine(env, d) == line;
    assert line[..|n|] == n && line[|n| + 1..] == v;
  }

  /** `received` is `d` with headers in another order, case or spacing, and with other signatures. */
  ghost predicate SameRequest(received: Request, d: Request) {
    && received.verb == d.verb && Lower(received.uri) == Lower(d.uri)
    && ContentType(received) == ContentType(d) && Range(received) == Range(d) && Date(received) == Date(d)
    && Rearranged(WithoutSignature(received.headers), WithoutSignature(d.headers))
  }

  /** A server with the same key that checks the signature made for `d` rebuilds the string signed,
      and accepts, exactly when `d` was signed without a signature header of its own; unless the
      keyed hash confuses the two strings. */
  lemma ServerAcceptsWhatIsSent(d: Request, received: Request, env: Env)
    requires SignatureFits(env, d) && SameRequest(received, d)
    requires SignatureOf(received) == HeaderValue([SignatureLine(env, d)], ATMOS_HEADER_SIGNATURE)
    ensures StringToSign(Stripped(received)) == StringToSign(d) <==> SignatureOf(d) == None
    ensures SignatureOf(d) == None ==> ServerAccepts(received, env.sign)
    ensures TellsApart(env.sign, StringToSign(Stripped(received)), StringToSign(d)) ==>
              (ServerAccepts(received, env.sign) <==> SignatureOf(d) == None)
  {
    hide ContentType, Range, Date, StringToSign, HeaderValue, WithoutSignature, SignatureLine, Rearranged, SkipSpaces;
    SignatureValue(env, d);
    StrippedSignsAlikeIff(d);
    StrippedFields(d);
    StrippedFields(received);
    RearrangedRequestsSignAlike(Stripped(received), Stripped(d));
  }

  /** What is sent, with the signatures taken off again, is what was signed. */
  lemma SentStripped(d: Request, env: Env)
    requires SignatureFits(env, d)
    ensures Stripped(WithLines(d, [SignatureLine(env, d)])) == Stripped(d)
  {
    SignatureValue(env, d);
    hide HasName, SignatureLine;
    var line := SignatureLine(env, d);
    var lines: seq<string> := [line];
    WithoutSignatureAppend(d.headers, lines);
    assert WithoutSignature(lines) == [] by { assert lines[1..] == []; }
  }

  // ---------------------------------------------------------------- from the request handed in to the server

  /** An operation that adds header lines, none of them a signature. */
  ghost predicate Appends(act: Request -> Option<Request>) {
    forall r :: act(r).Some? ==> exists more :: Appended(r, act(r).value, more)
  }

  ghost predicate Appended(r: Request, q: Request, more: seq<string>) {
    q == WithLines(r, more) && HeaderValue(more, ATMOS_HEADER_SIGNATURE) == None
  }

  ghost predicate AppendingOperations(operations: seq<Request -> Option<Request>>) {
    forall i :: 0 <= i < |operations| ==> Appends(operations[i])
  }

  /** No signature is cut off, and none is among the content headers. */
  ghost predicate ProperEnv(env: Env) {
    && (forall s :: |ATMOS_HEADER_SIGNATURE + ":" + env.sign(s)| < ATMOS_SIMPLE_HEADER_MAX)
    && (forall r :: HeaderValue(env.contentHeaders(r), ATMOS_HEADER_SIGNATURE) == None)
  }

  lemma AppendedTwice(r: Request, q: Request, p: Request, a: seq<string>, b: seq<string>)
    requires Appended(r, q, a) && Appended(q, p, b)
    ensures Appended(r, p, a + b)
  {
    hide HeaderValue;
    HeaderValueAppend(a, b, ATMOS_HEADER_SIGNATURE);
    assert r.headers + a + b == r.headers + (a + b);
  }

  lemma {:induction false} OperationsAppend(operations: seq<Request -> Option<Request>>, r: Request)
      returns (more: seq<string>)
    requires AppendingOperations(operations) && AfterOperations(operations, r).Some?
    ensures Appended(r, AfterOperations(operations, r).value, more)
    decreases |operations|
  {
    if operations == [] {
      more := [];
      assert r.headers + more == r.headers;
    } else {
      var last := operations[|operations| - 1];
      assert Appends(last);
      var first :| Appended(r, last(r).value, first);
      var rest := OperationsAppend(operations[..|operations| - 1], last(r).value);
      more := first + rest;
      AppendedTwice(r, last(r).value, AfterOperations(operations, r).value, first, rest);
    }
  }

  lemma DefaultLines(env: Env)
    ensures HeaderValue([DateLine(env)], ATMOS_HEADER_SIGNATURE) == None
    ensures HeaderValue([UidLine(env)], ATMOS_HEADER_SIGNATURE) == None
    ensures EmcWeight([UidLine(env)]) > 1
  {
    var date, uid := DateLine(env), UidLine(env);
    var n := ATMOS_HEADER_UID;
    assert date[0] == 'D' && uid[..|n|] == n && uid[|n|] == ':' && uid[6] == 'u';
    EmcNamed(uid, n);
    var dates: seq<string>, uids: seq<string> := [date], [uid];
    assert dates[1..] == [] && uids[1..] == [];
    assert Lower(ATMOS_HEADER_SIGNATURE)[0] == 'x' && Lower(ATMOS_HEADER_SIGNATURE)[6] == 's';
    assert |date| > 15 ==> Lower(date[..15])[0] == 'd';
    assert |uid| > 15 ==> Lower(uid[..15])[6] == 'u';
  }

  /** The default filters add lines, no signature among them before the request is signed, and at
      least one line that is signed. */
  lemma DefaultsAppend(q: Request, env: Env) returns (more: seq<string>)
    requires ProperEnv(env)
    ensures Appended(q, ToBeSigned(q, env), more) && EmcWeight(more) > 1
  {
    hide HeaderValue, EmcWeight, DateLine, UidLine;
    var date: seq<string>, uid: seq<string> := [DateLine(env)], [UidLine(env)];
    var dated := WithLines(q, date);
    var named := WithLines(dated, uid);
    var content := env.contentHeaders(named);
    DefaultLines(env);
    assert Appended(q, dated, date) && Appended(dated, named, uid) && Appended(named, ToBeSigned(q, env), content);
    AppendedTwice(q, dated, named, date, uid);
    AppendedTwice(q, named, ToBeSigned(q, env), date + uid, content);
    EmcWeightAppend(date, uid);
    EmcWeightAppend(date + uid, content);
    more := date + uid + content;
  }

  /** All lines between the request handed in and the request signed. */
  lemma SignedAppends(operations: seq<Request -> Option<Request>>, r: Request, env: Env) returns (more: seq<string>)
    requires AppendingOperations(operations) && ProperEnv(env) && AfterOperations(operations, r).Some?
    ensures Appended(r, ToBeSigned(AfterOperations(operations, r).value, env), more) && EmcWeight(more) > 1
  {
    hide HeaderValue, EmcWeight, ToBeSigned;
    var q := AfterOperations(operations, r).value;
    var first := OperationsAppend(operations, r);
    var rest := DefaultsAppend(q, env);
    AppendedTwice(r, q, ToBeSigned(q, env), first, rest);
    EmcWeightAppend(first, rest);
    more := first + rest;
  }

  /** For every chain of operations that add lines: the server rebuilds the string that was signed
      exactly when the request handed in carries no signature, and then it accepts. */
  lemma ExecutedRequestIsAccepted(operations: seq<Request -> Option<Request>>, r: Request, env: Env)
    requires AppendingOperations(operations) && ProperEnv(env) && AfterOperations(operations, r).Some?
    ensures var events := Run(OperationFilters(operations) + DEFAULTS, r, env);
            && |events| == 2 && events[0].Signed? && events[1].Sent?
            && (StringToSign(Stripped(events[1].request)) == StringToSign(events[0].request) <==>
                SignatureOf(r) == None)
            && (SignatureOf(r) == None ==> ServerAccepts(events[1].request, env.sign))
  {
    hide HeaderValue, EmcWeight, ToBeSigned, StringToSign, WithoutSignature, SignatureLine, Run, OperationFilters,
        SkipSpaces;
    var d := ToBeSigned(AfterOperations(operations, r).value, env);
    var more := SignedAppends(operations, r, env);
    SignedThenSent(operations, r, env);
    HeaderValueAppend(r.headers, more, ATMOS_HEADER_SIGNATURE);
    SentIsAccepted(d, env);
  }

  lemma SentIsAccepted(d: Request, env: Env)
    requires SignatureFits(env, d)
    ensures var sent := WithLines(d, [SignatureLine(env, d)]);
            && (StringToSign(Stripped(sent)) == StringToSign(d) <==> SignatureOf(d) == None)
            && (SignatureOf(d) == None ==> ServerAccepts(sent, env.sign))
            && SignatureOf(sent) ==
               if SignatureOf(d) == None then Some(SkipSpaces(env.sign(StringToSign(d)))) else SignatureOf(d)
  {
    hide HeaderValue, StringToSign, WithoutSignature, SignatureLine, SkipSpaces;
    SentStripped(d, env);
    StrippedSignsAlikeIff(d);
    SignatureValue(env, d);
    HeaderValueAppend(d.headers, [SignatureLine(env, d)], ATMOS_HEADER_SIGNATURE);
  }

  lemma FixedPartGrows(d: Request, more: seq<string>)
    requires RangeStays(d)
    ensures FixedLength(d) <= FixedLength(WithLines(d, more))
  {
    hide HeaderValue;
    HeaderValueAppend(d.headers, more, HTTP_HEADER_CONTENT_TYPE);
    HeaderValueAppend(d.headers, more, HTTP_HEADER_RANGE);
    HeaderValueAppend(d.headers, more, HTTP_HEADER_CONTENT_RANGE);
    HeaderValueAppend(d.headers, more, HTTP_HEADER_DATE);
  }

  /** Lines behind a request do not change the range it signs. */
  predicate RangeStays(d: Request) {
    HeaderValue(d.headers, HTTP_HEADER_RANGE).Some? || HeaderValue(d.headers, HTTP_HEADER_CONTENT_RANGE).None?
  }

  /** Without newlines the added lines show in the string, whatever becomes of the range. */
  lemma AppendedSignsOther(d: Request, more: seq<string>)
    requires NewlineFree(d) && NewlineFree(WithLines(d, more)) && EmcWeight(more) > 1
    ensures StringToSign(WithLines(d, more)) != StringToSign(d)
  {
    var e := WithLines(d, more);
    hide EmcWeight, StringToSign, NewlineFree, Lines, EmcOnly, Weight;
    StringToSignCharacterised(d, e);
    SignedLinesCompare(d.headers, e.headers);
    SignedWeight(d.headers);
    SignedWeight(e.headers);
    EmcWeightAppend(d.headers, more);
  }

  lemma AppendedSignsLonger(d: Request, more: seq<string>)
    requires RangeStays(d) && EmcWeight(more) > 1
    ensures StringToSign(WithLines(d, more)) != StringToSign(d)
  {
    hide HeaderValue, EmcWeight, StringToSign, FixedLength;
    FixedPartGrows(d, more);
    EmcWeightAppend(d.headers, more);
    HeavierIsLonger(d, WithLines(d, more));
  }

  /** A request object that is executed a second time, by any chain and at any later time, still
      carries its first signature. The server rebuilds neither the string signed `again` nor, unless
      newlines or a lone Content-Range are in play, the one signed first; so no choice between the two
      signatures makes it accept. */
  lemma ReexecutedRequestIsRejected(operations: seq<Request -> Option<Request>>, d: Request, env: Env, later: Env)
    requires AppendingOperations(operations) && ProperEnv(env) && ProperEnv(later) && later.sign == env.sign
    requires SignatureOf(d) == None && AfterOperations(operations, WithLines(d, [SignatureLine(env, d)])).Some?
    ensures var events := Run(OperationFilters(operations) + DEFAULTS, WithLines(d, [SignatureLine(env, d)]), later);
            && |events| == 2 && events[0].Signed? && events[1].Sent?
            && var again, received := StringToSign(events[0].request), Stripped(events[1].request);
            && StringToSign(received) != again
            && SignatureOf(events[1].request) == Some(SkipSpaces(env.sign(StringToSign(d))))
            && (RangeStays(d) || (NewlineFree(d) && NewlineFree(received)) ==>
                  && StringToSign(received) != StringToSign(d)
                  && (TellsApart(env.sign, StringToSign(received), StringToSign(d)) ==>
                        !ServerAccepts(events[1].request, env.sign)))
  {
    hide HeaderValue, EmcWeight, ToBeSigned, StringToSign, WithoutSignature, SignatureLine, Run, OperationFilters,
        SkipSpaces, NewlineFree, RangeStays;
    var sent := WithLines(d, [SignatureLine(env, d)]);
    var e := ToBeSigned(AfterOperations(operations, sent).value, later);
    SentIsAccepted(d, env);
    var more := SignedAppends(operations, sent, later);
    SignedThenSent(operations, sent, later);
    HeaderValueAppend(sent.headers, more, ATMOS_HEADER_SIGNATURE);
    SentIsAccepted(e, later);
    SentStripped(e, later);
    SentStripped(d, env);
    WithoutSignatureAppend(sent.headers, more);
    NothingToStrip(more);
    NothingToStrip(d.headers);
    assert Stripped(e) == WithLines(d, more);
    if RangeStays(d) {
      AppendedSignsLonger(d, more);
    } else if NewlineFree(d) && NewlineFree(Stripped(e)) {
      AppendedSignsOther(d, more);
    }
  }
}
