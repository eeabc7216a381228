/** The write filter at the head of a chain, as `AtmosClient_create_object` puts it there: what it
    adds is signed and sent, and where it gives up nothing is. */
module WriteChain {
  import opened CStrings
  import opened Rest
  import opened MetadataCodec
  import opened Canonical
  import opened Checksum
  import opened WriteRequest
  import AclCodec
  import opened FilterChain
  import opened WriteLines
  import opened WriteLookups

  // ---------------------------------------------------------------- the chain

  /** A line whose name begins with `x-emc` is among the signed lines of every request it is in. */
  lemma EmcLineIsSigned(headers: seq<string>, line: string, name: string)
    requires line in headers && HasName(line, name) && "x-emc" <= name
    ensures Line(line) in SignedLines(headers)
  {
    EmcNamed(line, name);
    hide Line, IsEmc, SignedLines, HasName;
    EmcHeadersAreCovered(headers, Line(line));
  }

  lemma LinesAdded(request: Request, plain: seq<string>, stamp: seq<string>)
    requires WellFormed(request) && GoodLines(plain) && GoodLines(stamp)
    ensures WellFormed(WithLines(request, plain + stamp))
  {
  }

  /** All lines a run of the filter that succeeds adds. */
  ghost function Added<C(!new)>(req: AtmosWriteObjectRequest<C>, utf8: bool): seq<string>
    requires req.Valid()
    reads req, req.parent, req.checksum, req.Files()
  {
    req.Plain(utf8) + req.ChecksumLines(utf8)
  }

  lemma AddedAreGood<C(!new)>(req: AtmosWriteObjectRequest<C>, utf8: bool)
    requires req.Valid() && WellFormed(req.parent.View())
    ensures WellFormed(WithLines(req.parent.View(), Added(req, utf8)))
  {
    hide PlainHeaders, StampLine, GenerateLine, GoodLine, HeaderValue;
    PlainLinesGood(req.meta, req.listable_meta, req.acl, req.request_body.Some?, utf8);
    if req.checksum != null {
      GenerateLineGood(req.checksum.alg);
      if req.request_body.Some? {
        StampLineGood(req.checksum.hash, req.checksum.alg, req.checksum.absorbed + BodyBytes(req.request_body.value));
      }
    }
    LinesAdded(req.parent.View(), req.Plain(utf8), req.ChecksumLines(utf8));
  }

  /** The checksum line, if one is added, is signed wherever it is. */
  lemma ChecksumIsSigned<C(!new)>(req: AtmosWriteObjectRequest<C>, utf8: bool, headers: seq<string>)
    requires req.Valid() && forall line :: line in Added(req, utf8) ==> line in headers
    ensures forall line :: line in req.ChecksumLines(utf8) ==> Line(line) in SignedLines(headers)
  {
    hide PlainHeaders, StampLine, GenerateLine, HeaderValue, Line, SignedLines, HasName;
    if req.DueIn(WsChecksum, req.Reached(utf8)) && req.request_body.Some? {
      var data := req.checksum.absorbed + BodyBytes(req.request_body.value);
      StampLineGood(req.checksum.hash, req.checksum.alg, data);
      EmcLineIsSigned(headers, StampLine(req.checksum.hash, req.checksum.alg, data), ATMOS_HEADER_WSCHECKSUM);
    } else if req.DueIn(GenerateChecksum, req.Reached(utf8)) {
      GenerateLineIsPlain(req.checksum.alg);
      EmcLineIsSigned(headers, GenerateLine(req.checksum.alg), ATMOS_HEADER_GENERATE_CHECKSUM);
    }
  }

  lemma AddedIsUnsigned<C(!new)>(req: AtmosWriteObjectRequest<C>, utf8: bool)
    requires req.Valid()
    ensures HeaderValue(Added(req, utf8), ATMOS_HEADER_SIGNATURE) == None
  {
    hide PlainHeaders, StampLine, GenerateLine, HeaderValue, HasName, Foreign, PlainLine;
    var name := ATMOS_HEADER_SIGNATURE;
    ForeignNames();
    PlainHeadersAnswerNothing(req.meta, req.listable_meta, req.acl, req.request_body.Some?, utf8, name);
    if req.DueIn(WsChecksum, req.Reached(utf8)) && req.request_body.Some? {
      var data := req.checksum.absorbed + BodyBytes(req.request_body.value);
      StampIsOther(req.checksum.hash, req.checksum.alg, data);
    } else if req.DueIn(GenerateChecksum, req.Reached(utf8)) {
      GenerateLineIsPlain(req.checksum.alg);
      PlainLineIsOther(GenerateLine(req.checksum.alg), name);
    }
    NoneNamed(req.ChecksumLines(utf8), name);
    HeaderValueAppend(req.Plain(utf8), req.ChecksumLines(utf8), name);
  }

  /** The request that is signed when the filters before the default ones hand on `q`, and the
      request that is sent. */
  function Exchange(q: Request, env: Env): seq<Event> {
    var d := ToBeSigned(q, env);
    [Signed(d), Sent(WithLines(d, [SignatureLine(env, d)]))]
  }

  /** A server rebuilds what was signed and accepts, if the request handed to the write filter and the
      lines it adds hold no signature. */
  lemma ExchangeIsAccepted(r: Request, added: seq<string>, env: Env)
    requires ProperEnv(env) && HeaderValue(added, ATMOS_HEADER_SIGNATURE) == None
    ensures var events := Exchange(WithLines(r, added), env);
            && (SignatureOf(r) == None <==>
                StringToSign(Stripped(events[1].request)) == StringToSign(events[0].request))
            && (SignatureOf(r) == None ==> ServerAccepts(events[1].request, env.sign))
  {
    hide HeaderValue, EmcWeight, ToBeSigned, StringToSign, WithoutSignature, SignatureLine, SkipSpaces;
    var q := WithLines(r, added);
    var more := DefaultsAppend(q, env);
    HeaderValueAppend(r.headers, added, ATMOS_HEADER_SIGNATURE);
    HeaderValueAppend(q.headers, more, ATMOS_HEADER_SIGNATURE);
    SentIsAccepted(ToBeSigned(q, env), env);
  }

  lemma KeepsLines(r: Request, added: seq<string>, env: Env)
    ensures forall line :: line in added ==> line in ToBeSigned(WithLines(r, added), env).headers
  {
  }

  lemma Regroup(headers: seq<string>, plain: seq<string>, checksum: seq<string>)
    ensures headers + plain + checksum == headers + (plain + checksum) && headers + plain + [] == headers + plain
  {
  }

  lemma ChecksumIsNeutral<C(!new)>(req: AtmosWriteObjectRequest<C>, utf8: bool)
    requires req.Valid()
    ensures Neutral(req.ChecksumLines(utf8))
  {
    hide PlainHeaders, StampLine, GenerateLine, HeaderValue;
    if req.checksum != null {
      ChecksumLinesAreNeutral(req.checksum.hash, req.checksum.alg,
                              req.checksum.absorbed + if req.request_body.Some? then BodyBytes(req.request_body.value)
                                  else []);
    }
  }

  /** Readers of the request find what the caller set. */
  lemma AddedIsCarried<C(!new)>(req: AtmosWriteObjectRequest<C>, utf8: bool)
    requires req.Valid() && Blank(req.parent.headers)
    ensures Carries(req.parent.headers + req.Plain(utf8), req.meta, req.listable_meta, req.acl, utf8)
    ensures Carries(req.parent.headers + Added(req, utf8), req.meta, req.listable_meta, req.acl, utf8)
  {
    hide PlainHeaders, Neutral, Carries, Blank;
    ghost var headers, plain, checksum := req.parent.headers, req.Plain(utf8), req.ChecksumLines(utf8);
    ChecksumIsNeutral(req, utf8);
    NothingIsNeutral();
    WrittenCarries(headers, req.meta, req.listable_meta, req.acl, req.request_body.Some?, utf8, checksum);
    WrittenCarries(headers, req.meta, req.listable_meta, req.acl, req.request_body.Some?, utf8, []);
    Regroup(headers, plain, checksum);
  }

  lemma NothingIsNeutral()
    ensures Neutral([])
  {
  }

  /** In the request that is signed and in the one that is sent, too. */
  lemma ExchangeCarries<C(!new)>(req: AtmosWriteObjectRequest<C>, utf8: bool, env: Env)
    requires req.Valid() && Blank(req.parent.headers) && ContentOnly(env)
    ensures forall i :: 0 <= i < 2 ==>
              Carries(Exchange(WithLines(req.parent.View(), Added(req, utf8)), env)[i].request.headers,
                      req.meta, req.listable_meta, req.acl, utf8)
  {
    hide PlainHeaders, Neutral, Carries, Blank, ToBeSigned, SignatureLine, ContentOnly;
    ghost var headers, plain, checksum := req.parent.headers, req.Plain(utf8), req.ChecksumLines(utf8);
    var q := WithLines(req.parent.View(), Added(req, utf8));
    var more := DefaultLinesAreNeutral(q, env);
    var signature := [SignatureLine(env, ToBeSigned(q, env))];
    ChecksumIsNeutral(req, utf8);
    NeutralAppend(checksum, more);
    NeutralAppend(checksum, more + signature);
    WrittenCarries(headers, req.meta, req.listable_meta, req.acl, req.request_body.Some?, utf8, checksum + more);
    WrittenCarries(headers, req.meta, req.listable_meta, req.acl, req.request_body.Some?, utf8,
        checksum + (more + signature));
    FourParts(headers, plain, checksum, more, signature);
  }

  lemma FourParts(a: seq<string>, b: seq<string>, c: seq<string>, d: seq<string>, e: seq<string>)
    ensures a + (b + c) + d == a + b + (c + d) && a + (b + c) + d + e == a + b + (c + (d + e))
  {
  }

  /** The write filter, seen as an operation of a chain: it hands on the request with proper lines
      added to it, or gives up. */
  method RunWriteFilter<C(!new)>(req: AtmosWriteObjectRequest<C>, utf8: bool) returns (outcome: Outcome)
    requires req.Valid() && WellFormed(req.parent.View())
    modifies req.parent`headers, req`file_filter, req.checksum, req.Files()
    ensures req.Valid() && WellFormed(req.parent.View())
    ensures outcome == old(req.Verdict(utf8))
    ensures req.parent.View() ==
              WithLines(old(req.parent.View()), if outcome == Next then old(Added(req, utf8)) else old(req.Plain(utf8)))
    ensures req.Absorbed() == old(req.Absorbed()) + old(req.ToAbsorb(utf8))
    ensures forall f :: f in req.Files() ==>
              f.pos == old(f.pos) + (if outcome == Failed(FSEEK_NOT_SUPPORTED) then |old(req.ToAbsorb(utf8))| else 0)
    ensures outcome == Next ==> req.BodyToSend() == old(req.BodyToSend())
    ensures old(Blank(req.parent.headers)) ==> Carries(req.parent.headers, req.meta, req.listable_meta, req.acl, utf8)
    ensures req.file_filter == old(req.file_filter || req.Installs(utf8))
  {
    hide PlainHeaders, HeaderValue, StampLine, GenerateLine, WellFormed, Finishes, Blank, Carries;
    AddedAreGood(req, utf8);
    PlainAreGood(req, utf8);
    if Blank(req.parent.headers) { AddedIsCarried(req, utf8); }
    ghost var r, plain, checksum := req.parent.View(), req.Plain(utf8), req.ChecksumLines(utf8);
    Regroup(r.headers, plain, checksum);
    outcome := req.SetWriteHeaders(utf8);
  }

  /** The filters and the transport at work: what is noted, what is sent, and what is left behind. */
  method RunExchange<C(!new)>(req: AtmosWriteObjectRequest<C>, utf8: bool, env: Env)
    returns (events: seq<Event>, body: seq<byte>)
    requires req.Valid() && WellFormed(req.parent.View()) && Sound(DEFAULTS, env)
    modifies req.parent, req`file_filter, req.checksum, req.Files()
    ensures req.Valid() && WellFormed(req.parent.View())
    ensures old(req.Verdict(utf8)) != Next ==>
              && events == [] && body == [] && req.parent.headers == old(req.Reached(utf8))
              && req.Absorbed() == old(req.Absorbed()) + old(req.ToAbsorb(utf8))
    ensures old(req.Verdict(utf8)) == Next ==>
              && events == Exchange(WithLines(old(req.parent.View()), old(Added(req, utf8))), env)
              && req.parent.View() == events[1].request
              && body == old(req.BodyToSend())
              && (forall f :: f in req.Files() ==> f.pos == old(f.pos) + |body|)
              && req.Absorbed() == old(req.Absorbed()) + old(req.ToAbsorb(utf8))
                                   + (if req.Filtering() then body else [])
    ensures req.file_filter == old(req.file_filter || req.Installs(utf8))
  {
    hide Added, Run, WellFormed, Finishes, ToBeSigned, Exchange, BodyBytes;
    RunDefaultsIsExchange(WithLines(req.parent.View(), Added(req, utf8)), env);
    var outcome := RunWriteFilter(req, utf8);
    if outcome != Next { return [], []; }
    events, body := SignAndSend(req, env);
  }

  /** The default filters, and the transport. */
  method SignAndSend<C(!new)>(req: AtmosWriteObjectRequest<C>, env: Env) returns (events: seq<Event>, body: seq<byte>)
    requires req.Valid() && WellFormed(req.parent.View()) && Sound(DEFAULTS, env)
    modifies req.parent, req.checksum, req.Files()
    ensures req.Valid() && WellFormed(req.parent.View())
    ensures events == Exchange(old(req.parent.View()), env) && req.parent.View() == events[1].request
    ensures body == old(req.BodyToSend()) && forall f :: f in req.Files() ==> f.pos == old(f.pos) + |body|
    ensures req.Absorbed() == old(req.Absorbed()) + (if req.Filtering() then body else [])
  {
    hide Run, WellFormed, ToBeSigned, Exchange, BodyBytes;
    RunDefaultsIsExchange(req.parent.View(), env);
    var chain := AddDefaultFilters([]);
    assert chain == DEFAULTS;
    events := Execute(chain, req.parent, env);
    body := req.Transmit();
  }

  lemma RunDefaultsIsExchange(q: Request, env: Env)
    ensures Run(DEFAULTS, q, env) == Exchange(q, env)
    ensures |Exchange(q, env)| == 2 && Exchange(q, env)[1].Sent?
  {
    RunDefaults(q, env);
  }

  lemma PlainAreGood<C(!new)>(req: AtmosWriteObjectRequest<C>, utf8: bool)
    requires req.Valid() && WellFormed(req.parent.View())
    ensures WellFormed(WithLines(req.parent.View(), req.Plain(utf8)))
  {
    hide PlainHeaders, GoodLine;
    PlainLinesGood(req.meta, req.listable_meta, req.acl, req.request_body.Some?, utf8);
    LinesAdded(req.parent.View(), req.Plain(utf8), []);
    assert req.Plain(utf8) + [] == req.Plain(utf8);
  }

  lemma StillUnstamped(headers: seq<string>, meta: seq<Metadata>, listable: seq<Metadata>, acl: seq<AclCodec.AclEntry>,
      hasBody: bool, utf8: bool)
    requires Unstamped(headers, WsChecksum)
    ensures Unstamped(headers + PlainHeaders(meta, listable, acl, hasBody, utf8), WsChecksum)
  {
    hide PlainHeaders, HeaderValue, Foreign;
    ForeignNames();
    PlainHeadersAnswerNothing(meta, listable, acl, hasBody, utf8, ATMOS_HEADER_WSCHECKSUM);
    HeaderValueAppend(headers, PlainHeaders(meta, listable, acl, hasBody, utf8), ATMOS_HEADER_WSCHECKSUM);
  }

  /** The filter gives up over its checksum: the request is as unstamped as before, but its body has
      been absorbed, and a file that could not be put back stands behind it. */
  method GiveUp<C(!new)>(req: AtmosWriteObjectRequest<C>, utf8: bool)
    requires req.Valid()
    requires req.Verdict(utf8) == Failed(FSEEK_NOT_SUPPORTED) || req.Verdict(utf8) == Failed(CHECKSUM_FAILED)
    modifies req.parent`headers, req`file_filter, req.checksum, req.Files()
    ensures req.Valid() && req.DueIn(WsChecksum, req.Reached(utf8))
    ensures req.Absorbed() == old(req.Absorbed()) + old(req.BodyToSend())
    ensures req.BodyToSend() ==
              if old(req.Verdict(utf8)) == Failed(FSEEK_NOT_SUPPORTED) then old(Behind(req.request_body.value))
              else old(req.BodyToSend())
  {
    hide PlainHeaders, HeaderValue, StampLine, GenerateLine, Finishes, AheadOf, Unstamped;
    ghost var reached := req.Reached(utf8);
    assert reached + [] == reached;
    StillUnstamped(reached, req.meta, req.listable_meta, req.acl, req.request_body.Some?, utf8);
    var outcome := req.SetWriteHeaders(utf8);
  }

  /** A second try after the filter gave up over its checksum, which then is no longer that of the
      object: the body is in it twice, or, where the file could not be put back, the body and the bytes
      behind it. */
  method Retry<C(!new)>(req: AtmosWriteObjectRequest<C>, utf8: bool) returns (outcome: Outcome)
    requires req.Valid()
    requires req.Verdict(utf8) == Failed(FSEEK_NOT_SUPPORTED) || req.Verdict(utf8) == Failed(CHECKSUM_FAILED)
    modifies req.parent`headers, req`file_filter, req.checksum, req.Files()
    ensures outcome == Failed(FSEEK_NOT_SUPPORTED) <==> old(req.Verdict(utf8)) == Failed(FSEEK_NOT_SUPPORTED)
    ensures req.Absorbed() == old(req.Absorbed()) + old(req.BodyToSend()) +
              (if outcome == Failed(FSEEK_NOT_SUPPORTED) then old(Behind(req.request_body.value))
               else old(req.BodyToSend()))
  {
    hide PlainHeaders, HeaderValue, StampLine, GenerateLine, Finishes, AheadOf, Unstamped, Behind;
    GiveUp(req, utf8);
    outcome := req.SetWriteHeaders(utf8);
  }

  /** As many bytes as the body has room for, from where the body ends. */
  function Behind(body: Body): seq<byte>
    requires ValidBody(body)
    reads if body.FileBody? then {body.file} else {}
  {
    match body
    case Memory(bytes) => []
    case FileBody(f, size) => AheadOf(f.data, f.pos + |f.Ahead(size)|, size)
  }

  /** Every checksum line the filter adds is signed, and the server accepts what is sent if and only
      if the request was handed in without a signature. */
  ghost predicate Covered(events: seq<Event>, checksum: seq<string>, handed_in: Request, env: Env) {
    && |events| == 2 && events[0].Signed? && events[1].Sent?
    && (forall line :: line in checksum ==> Line(line) in SignedLines(events[0].request.headers))
    && (SignatureOf(handed_in) == None <==>
        StringToSign(Stripped(events[1].request)) == StringToSign(events[0].request))
    && (SignatureOf(handed_in) == None ==> ServerAccepts(events[1].request, env.sign))
  }

  lemma ExchangeIsCovered<C(!new)>(req: AtmosWriteObjectRequest<C>, utf8: bool, env: Env)
    requires req.Valid() && ProperEnv(env)
    ensures Covered(Exchange(WithLines(req.parent.View(), Added(req, utf8)), env), req.ChecksumLines(utf8),
                    req.parent.View(), env)
  {
    hide Added, HeaderValue, SignatureLine, Line, SignedLines, StringToSign, WithoutSignature, ToBeSigned, SkipSpaces;
    var r, added := req.parent.View(), Added(req, utf8);
    AddedIsUnsigned(req, utf8);
    KeepsLines(r, added, env);
    ChecksumIsSigned(req, utf8, ToBeSigned(WithLines(r, added), env).headers);
    ExchangeIsAccepted(r, added, env);
  }

  /** `AtmosClient_create_object` and the second half of `AtmosClient_update_object`: the write filter
      in front of the default ones, and the transport behind them. When the filter gives up, nothing
      is signed and nothing is sent. Otherwise the request is signed with all its lines, sent as signed
      plus the signature, and followed by its body, and the server's side of it is `Covered`. */
  method ExecuteWrite<C(!new)>(req: AtmosWriteObjectRequest<C>, utf8: bool, env: Env)
    returns (events: seq<Event>, body: seq<byte>)
    requires req.Valid() && WellFormed(req.parent.View()) && Sound(DEFAULTS, env) && ProperEnv(env)
    modifies req.parent, req`file_filter, req.checksum, req.Files()
    ensures req.Valid() && WellFormed(req.parent.View())
    ensures old(req.Verdict(utf8)) != Next ==>
              && events == [] && body == [] && req.parent.headers == old(req.Reached(utf8))
              && req.Absorbed() == old(req.Absorbed()) + old(req.ToAbsorb(utf8))
    ensures old(req.Verdict(utf8)) == Next ==>
              && events == Exchange(WithLines(old(req.parent.View()), old(Added(req, utf8))), env)
              && Covered(events, old(req.ChecksumLines(utf8)), old(req.parent.View()), env)
              && req.parent.View() == events[1].request
              && body == old(req.BodyToSend())
              && (forall f :: f in req.Files() ==> f.pos == old(f.pos) + |body|)
              && req.Absorbed() == old(req.Absorbed()) + old(req.ToAbsorb(utf8))
                                   + (if req.Filtering() then body else [])
    ensures old(req.Verdict(utf8)) == Next && old(Blank(req.parent.headers)) && ContentOnly(env) ==>
              && Carries(events[0].request.headers, req.meta, req.listable_meta, req.acl, utf8)
              && Carries(events[1].request.headers, req.meta, req.listable_meta, req.acl, utf8)
    ensures req.file_filter == old(req.file_filter || req.Installs(utf8))
  {
    hide Blank, Carries, ContentOnly, PlainHeaders, Unstamped, Finishes, StampLine, GenerateLine;
    if Blank(req.parent.headers) && ContentOnly(env) { ExchangeCarries(req, utf8, env); }
    hide Added, Exchange, Covered, WellFormed, ProperEnv, Sound, BodyBytes;
    ExchangeIsCovered(req, utf8, env);
    events, body := RunExchange(req, utf8, env);
  }

  lemma GenerateIsSent<C(!new)>(req: AtmosWriteObjectRequest<C>, utf8: bool, env: Env)
    requires req.Valid() && req.DueIn(GenerateChecksum, req.Reached(utf8))
    ensures HeaderValue(Exchange(WithLines(req.parent.View(), Added(req, utf8)), env)[1].request.headers,
        "x-emc-generate-checksum")
            == Some(AlgName(req.checksum.alg))
  {
    assert ATMOS_HEADER_GENERATE_CHECKSUM == "x-emc-generate-checksum";
    hide HeaderValue, PlainHeaders, GenerateLine, StampLine, DateLine, UidLine, SignatureLine, AlgName;
    var q := WithLines(req.parent.View(), Added(req, utf8));
    var d := ToBeSigned(q, env);
    var dated := WithLines(WithLines(q, [DateLine(env)]), [UidLine(env)]);
    var a, b, c, e := [DateLine(env)], [UidLine(env)], env.contentHeaders(dated), [SignatureLine(env, d)];
    GenerateFound(req.Reached(utf8), req.checksum.alg, a + b + c + e);
    SixParts(req.parent.headers, req.Plain(utf8), [GenerateLine(req.checksum.alg)], a, b, c, e);
  }

  lemma SixParts(h: seq<string>, p: seq<string>, g: seq<string>, a: seq<string>, b: seq<string>, c: seq<string>,
      e: seq<string>)
    ensures h + (p + g) + a + b + c + e == h + p + g + (a + b + c + e)
  {
  }

  /** Generate mode, from request to answer: the body is absorbed exactly once, a body in memory before
      it is sent and a file while it is sent, and the answer is accepted if and only if it names the
      digest of what was sent, behind whatever the object had absorbed before. */
  method ExecuteAndVerify<C(!new)>(req: AtmosWriteObjectRequest<C>, utf8: bool, env: Env, answer: seq<string>)
    returns (events: seq<Event>, body: seq<byte>, ok: bool)
    requires req.Valid() && WellFormed(req.parent.View()) && Sound(DEFAULTS, env) && ProperEnv(env)
    requires req.DueIn(GenerateChecksum, req.Reached(utf8)) && req.request_body.Some?
    modifies req.parent, req`file_filter, req.checksum, req.Files()
    ensures |events| == 2 && body == old(req.BodyToSend())
    ensures HeaderValue(events[1].request.headers, "x-emc-generate-checksum") == Some(AlgName(req.checksum.alg))
    ensures req.checksum.absorbed == old(req.checksum.absorbed) + body
    ensures ok <==> var value := HeaderValue(answer, "x-emc-content-checksum");
                    && Finishes(req.checksum.hash, old(req.checksum.absorbed) + body) && value.Some?
                    && Lower(value.value) == AlgName(req.checksum.alg) + "/" +
                                             Hex(Digest(req.checksum.hash, old(req.checksum.absorbed) + body))
  {
    hide Added, Exchange, WellFormed, ProperEnv, Sound, HeaderValue, Digest, Hex, Finishes, Unstamped, PlainHeaders;
    assert req.checksum.absorbed + [] == req.checksum.absorbed;
    GenerateIsSent(req, utf8, env);
    events, body := ExecuteWrite(req, utf8, env);
    assert old(req.checksum.absorbed) + [] + body == old(req.checksum.absorbed) + body;
    assert old(req.checksum.absorbed) + body + [] == old(req.checksum.absorbed) + body;
    ok := req.checksum.VerifyResponse(answer);
  }
}
