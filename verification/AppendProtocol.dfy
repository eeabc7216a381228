/** Creating an object and appending to it with one checksum object, as `atmos_common.h` demands of
    callers: every request absorbs its body into the same object, and every append writes the range
    that starts at the running total. Bodies may be pieces of one open file, which each sending reads
    on from where the last one stopped. */
module AppendProtocol {
  import opened CStrings
  import opened Rest
  import opened MetadataCodec
  import AclCodec
  import opened Canonical
  import opened Checksum
  import opened Ranges
  import opened WriteRequest
  import opened FilterChain
  import opened WriteLines
  import opened WriteChain

  /** One request of a run: what the caller sets before executing it. */
  datatype Write = Write(body: Body, meta: seq<Metadata>, listable: seq<Metadata>, acl: seq<AclCodec.AclEntry>)

  /** What becomes of it: the request as it was signed, as it was sent, and the body behind it. */
  datatype Delivery = Delivery(signed: Request, request: Request, body: seq<byte>)

  function Flatten(parts: seq<seq<byte>>): seq<byte> {
    if parts == [] then [] else Flatten(parts[..|parts| - 1]) + parts[|parts| - 1]
  }

  lemma FlattenSnoc(parts: seq<seq<byte>>, k: nat)
    requires k < |parts|
    ensures Flatten(parts[..k + 1]) == Flatten(parts[..k]) + parts[k]
  {
    assert parts[..k + 1][..k] == parts[..k];
  }

  // ---------------------------------------------------------------- what the lookups of a server find

  /** Header lookups answer with the state of `data`. */
  ghost predicate Stamped<C>(headers: seq<string>, h: Hash<C>, alg: Alg, data: seq<byte>) {
    HeaderValue(headers, "x-emc-wschecksum") == Some(StateText(h, alg, data))
  }

  /** A stamp behind lines that hold none is what the server, or a second run of the filter, finds. */
  lemma StampFound<C(!new)>(before: seq<string>, h: Hash<C>, alg: Alg, data: seq<byte>)
    requires Lawful(h, alg) && |data| < INT64_LIMIT
    requires HeaderValue(before, ATMOS_HEADER_WSCHECKSUM) == None
    ensures Stamped(before + [StampLine(h, alg, data)], h, alg, data)
  {
    StampNotCut(h, alg, data);
    HeaderValueAppend(before, [StampLine(h, alg, data)], ATMOS_HEADER_WSCHECKSUM);
    LineValue(ATMOS_HEADER_WSCHECKSUM, StateText(h, alg, data));
    assert StateText(h, alg, data)[0] == AlgName(alg)[0] != ' ';
  }

  lemma RangeUnrelated(start: int, end: int)
    ensures HeaderValue(RangeHeader(start, end), ATMOS_HEADER_WSCHECKSUM) == None
    ensures HeaderValue(RangeHeader(start, end), ATMOS_HEADER_SIGNATURE) == None
  {
    hide RangeText;
    if start != -1 || end != -1 {
      var line := RangeLine(start, end);
      assert line[0] == 'R';
      NotNamed(line, ATMOS_HEADER_WSCHECKSUM, 0);
      NotNamed(line, ATMOS_HEADER_SIGNATURE, 0);
      OneLine(line, ATMOS_HEADER_WSCHECKSUM);
      OneLine(line, ATMOS_HEADER_SIGNATURE);
    }
  }

  /** The content lines set no range. */
  ghost predicate RangeFree(env: Env) {
    forall r :: HeaderValue(env.contentHeaders(r), HTTP_HEADER_RANGE) == None
  }

  /** What the default filters add leaves the range as it was. */
  lemma DefaultsKeepRange(q: Request, env: Env)
    requires RangeFree(env)
    ensures forall i :: 0 <= i < 2 ==>
              HeaderValue(Exchange(q, env)[i].request.headers, HTTP_HEADER_RANGE)
                  == HeaderValue(q.headers, HTTP_HEADER_RANGE)
  {
    hide HeaderValue, DateLine, UidLine, SignatureLine;
    var dated := WithLines(q, [DateLine(env)]);
    var named := WithLines(dated, [UidLine(env)]);
    var d := ToBeSigned(q, env);
    DefaultLinesWithoutRange(env, d);
    HeaderValueAppend(q.headers, [DateLine(env)], HTTP_HEADER_RANGE);
    HeaderValueAppend(dated.headers, [UidLine(env)], HTTP_HEADER_RANGE);
    HeaderValueAppend(named.headers, env.contentHeaders(named), HTTP_HEADER_RANGE);
    HeaderValueAppend(d.headers, [SignatureLine(env, d)], HTTP_HEADER_RANGE);
  }

  /** They keep a stamp, too. */
  lemma DefaultsKeepStamp<C>(q: Request, env: Env, h: Hash<C>, alg: Alg, data: seq<byte>)
    requires Stamped(q.headers, h, alg, data)
    ensures Stamped(Exchange(q, env)[1].request.headers, h, alg, data)
  {
    hide HeaderValue, DateLine, UidLine, SignatureLine, StateText;
    var d := ToBeSigned(q, env);
    var dated := WithLines(WithLines(q, [DateLine(env)]), [UidLine(env)]);
    var more := [DateLine(env)] + [UidLine(env)] + env.contentHeaders(dated) + [SignatureLine(env, d)];
    assert Exchange(q, env)[1].request.headers == q.headers + more;
    HeaderValueAppend(q.headers, more, ATMOS_HEADER_WSCHECKSUM);
  }

  /** The lines the write filter adds to a request that has no stamp yet. */
  function Written<C>(w: Write, utf8: bool, h: Hash<C>, alg: Alg, data: seq<byte>): seq<string> {
    PlainHeaders(w.meta, w.listable, w.acl, true, utf8) + [StampLine(h, alg, data)]
  }

  lemma WrittenLookups<C(!new)>(r: Request, w: Write, utf8: bool, h: Hash<C>, alg: Alg, data: seq<byte>)
    requires Lawful(h, alg) && |data| < INT64_LIMIT && HeaderValue(r.headers, ATMOS_HEADER_WSCHECKSUM) == None
    ensures var headers := WithLines(r, Written(w, utf8, h, alg, data)).headers;
            && Stamped(headers, h, alg, data)
            && HeaderValue(headers, HTTP_HEADER_RANGE) == HeaderValue(r.headers, HTTP_HEADER_RANGE)
  {
    hide HeaderValue, PlainHeaders, StampLine, StateText, Foreign, HasName, Lawful;
    var plain, stamp := PlainHeaders(w.meta, w.listable, w.acl, true, utf8), [StampLine(h, alg, data)];
    ForeignNames();
    PlainHeadersAnswerNothing(w.meta, w.listable, w.acl, true, utf8, ATMOS_HEADER_WSCHECKSUM);
    PlainHeadersAnswerNothing(w.meta, w.listable, w.acl, true, utf8, HTTP_HEADER_RANGE);
    HeaderValueAppend(r.headers, plain, ATMOS_HEADER_WSCHECKSUM);
    StampFound(r.headers + plain, h, alg, data);
    StampIsOther(h, alg, data);
    OneLine(StampLine(h, alg, data), HTTP_HEADER_RANGE);
    HeaderValueAppend(r.headers, plain, HTTP_HEADER_RANGE);
    HeaderValueAppend(r.headers + plain, stamp, HTTP_HEADER_RANGE);
    assert r.headers + plain + stamp == r.headers + (plain + stamp);
  }

  // ---------------------------------------------------------------- one request

  ghost predicate ReadyToSend(w: Write)
    reads if w.body.FileBody? then {w.body.file} else {}
  {
    && ValidBody(w.body) && Seekable(w.body)
    && CEntries(w.meta) && CEntries(w.listable) && forall i :: 0 <= i < |w.acl| ==> NulFree(w.acl[i].principal)
  }

  ghost function FilesOf(w: Write): set<CFile> { if w.body.FileBody? then {w.body.file} else {} }

  /** An object that produces a digest whenever it is asked for one. */
  ghost predicate Working<C(!new)>(ck: AtmosChecksum<C>)
    reads ck
  {
    ck.Valid() && ck.mode == WsChecksum && forall data :: Finishes(ck.hash, data)
  }

  ghost predicate GoodEnv(env: Env) { Sound(DEFAULTS, env) && ProperEnv(env) && RangeFree(env) }

  method Configure<C(!new)>(req: AtmosWriteObjectRequest<C>, ck: AtmosChecksum<C>, w: Write)
    requires ck.Valid() && ReadyToSend(w)
    modifies req
    ensures req.Valid() && req.checksum == ck && req.request_body == Some(w.body) && req.Files() == FilesOf(w)
    ensures req.file_filter == old(req.file_filter)
    ensures forall utf8 :: req.Plain(utf8) == PlainHeaders(w.meta, w.listable, w.acl, true, utf8)
  {
    req.meta, req.listable_meta, req.acl := w.meta, w.listable, w.acl;
    req.checksum, req.request_body := ck, Some(w.body);
  }

  lemma ToBeWritten<C(!new)>(req: AtmosWriteObjectRequest<C>, w: Write, utf8: bool)
    requires req.Valid() && req.checksum != null && req.checksum.mode == WsChecksum && ReadyToSend(w)
    requires req.request_body == Some(w.body) && req.Plain(utf8) == PlainHeaders(w.meta, w.listable, w.acl, true, utf8)
    requires HeaderValue(req.parent.headers, ATMOS_HEADER_WSCHECKSUM) == None
    requires Finishes(req.checksum.hash, req.checksum.absorbed + BodyBytes(w.body))
    ensures req.Verdict(utf8) == Next && req.ToAbsorb(utf8) == BodyBytes(w.body) == req.BodyToSend()
    ensures req.ChecksumLines(utf8) ==
              [StampLine(req.checksum.hash, req.checksum.alg, req.checksum.absorbed + BodyBytes(w.body))]
    ensures Added(req, utf8) ==
              Written(w, utf8, req.checksum.hash, req.checksum.alg, req.checksum.absorbed + BodyBytes(w.body))
    ensures !req.Installs(utf8)
  {
    hide PlainHeaders, HeaderValue, StampLine, GenerateLine, Foreign, Finishes;
    ForeignNames();
    PlainHeadersAnswerNothing(w.meta, w.listable, w.acl, true, utf8, ATMOS_HEADER_WSCHECKSUM);
    HeaderValueAppend(req.parent.headers, req.Plain(utf8), ATMOS_HEADER_WSCHECKSUM);
  }

  /** What a run promises about each request, wherever its range comes from: the stamp is found and is
      among the signed lines, a range that is found is the one that is signed, and the server accepts. */
  ghost predicate Delivered<C>(sent: Delivery, h: Hash<C>, alg: Alg, data: seq<byte>, env: Env) {
    && Stamped(sent.request.headers, h, alg, data)
    && Line(StampLine(h, alg, data)) in SignedLines(sent.signed.headers)
    && (HeaderValue(sent.request.headers, HTTP_HEADER_RANGE).Some? ==>
          HeaderValue(sent.request.headers, HTTP_HEADER_RANGE) == Some(Range(sent.signed)))
    && StringToSign(Stripped(sent.request)) == StringToSign(sent.signed)
    && ServerAccepts(sent.request, env.sign)
  }

  lemma WriteIsDelivered<C(!new)>(r: Request, w: Write, utf8: bool, h: Hash<C>, alg: Alg, data: seq<byte>, env: Env,
      events: seq<Event>, body: seq<byte>)
    requires Lawful(h, alg) && |data| < INT64_LIMIT && RangeFree(env)
    requires HeaderValue(r.headers, ATMOS_HEADER_WSCHECKSUM) == None && SignatureOf(r) == None
    requires events == Exchange(WithLines(r, Written(w, utf8, h, alg, data)), env)
    requires Covered(events, [StampLine(h, alg, data)], r, env)
    ensures Delivered(Delivery(events[0].request, events[1].request, body), h, alg, data, env)
    ensures AnnouncedRange(events[1].request.headers) == AnnouncedRange(r.headers)
  {
    hide HeaderValue, StampLine, StateText, Line, SignedLines, StringToSign, ServerAccepts, Exchange, Written, Lawful,
        Stamped,
        Stripped, ReadRange;
    var q := WithLines(r, Written(w, utf8, h, alg, data));
    WrittenLookups(r, w, utf8, h, alg, data);
    DefaultsKeepRange(q, env);
    DefaultsKeepStamp(q, env, h, alg, data);
  }

  method SendWrite<C(!new)>(req: AtmosWriteObjectRequest<C>, ck: AtmosChecksum<C>, w: Write, utf8: bool, env: Env)
    returns (sent: Delivery)
    requires Working(ck) && ReadyToSend(w) && GoodEnv(env) && WellFormed(req.parent.View()) && !req.file_filter
    requires |ck.absorbed| + |BodyBytes(w.body)| < INT64_LIMIT
    requires HeaderValue(req.parent.headers, ATMOS_HEADER_WSCHECKSUM) == None && SignatureOf(req.parent.View()) == None
    modifies req, req.parent, ck, FilesOf(w)
    ensures Working(ck) && ck.absorbed == old(ck.absorbed) + old(BodyBytes(w.body))
    ensures sent.body == old(BodyBytes(w.body)) && sent.request == req.parent.View()
    ensures Delivered(sent, ck.hash, ck.alg, ck.absorbed, env)
    ensures AnnouncedRange(sent.request.headers) == AnnouncedRange(old(req.parent.headers))
    ensures ReadyToSend(w) && forall f :: f in FilesOf(w) ==> f.pos == old(f.pos) + |sent.body|
    ensures req.Valid() && req.checksum == ck && req.request_body == Some(w.body) && WellFormed(req.parent.View())
    ensures !req.file_filter
  {
    hide PlainHeaders, StampLine, StateText, AnnouncedRange, Lawful, WellFormed, ProperEnv, Sound, Covered, Exchange,
        Written, Added,
        Delivered, HeaderValue, Finishes, RangeFree;
    ghost var r, data := req.parent.View(), ck.absorbed + BodyBytes(w.body);
    Configure(req, ck, w);
    ToBeWritten(req, w, utf8);
    var events, body := ExecuteWrite(req, utf8, env);
    assert ck.absorbed == data + [] == data;
    WriteIsDelivered(r, w, utf8, ck.hash, ck.alg, data, env, events, body);
    CoveredShape(events, [StampLine(ck.hash, ck.alg, data)], r, env);
    sent := Delivery(events[0].request, events[1].request, body);
  }

  lemma CoveredShape(events: seq<Event>, checksum: seq<string>, r: Request, env: Env)
    requires Covered(events, checksum, r, env)
    ensures |events| == 2 && events[0].Signed? && events[1].Sent?
  {
  }

  /** Executing a request a second time, as after a lost connection. It is stamped already, so nothing
      is absorbed again and the stamp stays; but the file is not put back either, and the second
      sending reads on behind the first. So the stamp speaks of what is sent the second time if the
      body is in memory, and not if it is the rest of a file, unless that is nothing. */
  method SendTwice<C(!new)>(req: AtmosWriteObjectRequest<C>, ck: AtmosChecksum<C>, w: Write, utf8: bool, env: Env,
      later: Env)
    returns (sent: Delivery, again: seq<byte>)
    requires Working(ck) && ReadyToSend(w) && GoodEnv(env) && GoodEnv(later) && WellFormed(req.parent.View())
        && !req.file_filter
    requires |ck.absorbed| + |BodyBytes(w.body)| < INT64_LIMIT
    requires HeaderValue(req.parent.headers, ATMOS_HEADER_WSCHECKSUM) == None && SignatureOf(req.parent.View()) == None
    modifies req, req.parent, ck, FilesOf(w)
    ensures Working(ck) && ck.absorbed == old(ck.absorbed) + sent.body && sent.body == old(BodyBytes(w.body))
    ensures Delivered(sent, ck.hash, ck.alg, ck.absorbed, env)
    ensures Stamped(req.parent.headers, ck.hash, ck.alg, ck.absorbed)
    ensures w.body.Memory? ==> again == sent.body
    ensures w.body.FileBody? ==>
              && again == old(AheadOf(w.body.file.data, w.body.file.pos + |BodyBytes(w.body)|, w.body.size))
              && (old(w.body.file.pos) + |sent.body| == |w.body.file.data| ==>
                    (again == sent.body <==> sent.body == []))
  {
    hide PlainHeaders, StateText, Lawful, WellFormed, ProperEnv, Sound, Covered, Delivered, Added, Exchange,
        HeaderValue, Finishes,
        AheadOf, AnnouncedRange, StampLine, Stamped;
    ghost var pos := if w.body.FileBody? then w.body.file.pos else 0;
    sent := SendWrite(req, ck, w, utf8, env);
    DeliveredIsStamped(sent, ck.hash, ck.alg, ck.absorbed, env);
    SecondRun(req, utf8, later, ck.hash, ck.alg, ck.absorbed);
    assert ck.absorbed + [] == ck.absorbed;
    if w.body.FileBody? {
      NothingLeft(w.body.file.data, pos + |sent.body|, w.body.size);
    }
    var events, body := ExecuteWrite(req, utf8, later);
    again := body;
  }

  lemma DeliveredIsStamped<C>(sent: Delivery, h: Hash<C>, alg: Alg, data: seq<byte>, env: Env)
    requires Delivered(sent, h, alg, data, env)
    ensures Stamped(sent.request.headers, h, alg, data)
  {
  }

  lemma NothingLeft(data: seq<byte>, pos: nat, count: nat)
    ensures pos == |data| ==> AheadOf(data, pos, count) == []
  {
  }

  lemma SecondRun<C(!new)>(req: AtmosWriteObjectRequest<C>, utf8: bool, env: Env, h: Hash<C>, alg: Alg, data: seq<byte>)
    requires req.Valid() && req.checksum != null && req.checksum.mode == WsChecksum
        && Stamped(req.parent.headers, h, alg, data)
    ensures req.Verdict(utf8) == Next && req.ToAbsorb(utf8) == [] && !req.Installs(utf8)
    ensures Stamped(Exchange(WithLines(req.parent.View(), Added(req, utf8)), env)[1].request.headers, h, alg, data)
  {
    hide HeaderValue, StateText, PlainHeaders, Exchange;
    HeaderValueAppend(req.parent.headers, req.Plain(utf8), ATMOS_HEADER_WSCHECKSUM);
    HeaderValueAppend(req.parent.headers, Added(req, utf8), ATMOS_HEADER_WSCHECKSUM);
    DefaultsKeepStamp(WithLines(req.parent.View(), Added(req, utf8)), env, h, alg, data);
  }


  method SendCreate<C(!new)>(ck: AtmosChecksum<C>, w: Write, utf8: bool, env: Env) returns (sent: Delivery)
    requires Working(ck) && ReadyToSend(w) && GoodEnv(env)
    requires |ck.absorbed| + |BodyBytes(w.body)| < INT64_LIMIT
    modifies ck, FilesOf(w)
    ensures Working(ck) && ck.absorbed == old(ck.absorbed) + old(BodyBytes(w.body))
    ensures sent.body == old(BodyBytes(w.body)) && AnnouncedRange(sent.request.headers) == Some((-1, -1))
    ensures Delivered(sent, ck.hash, ck.alg, ck.absorbed, env)
    ensures ReadyToSend(w) && forall f :: f in FilesOf(w) ==> f.pos == old(f.pos) + |sent.body|
  {
    var req := new AtmosWriteObjectRequest<C>("/rest/objects", Post);
    assert AnnouncedRange(req.parent.headers) == Some((-1, -1));
    hide AnnouncedRange, StateText, Lawful, Delivered, GoodEnv;
    sent := SendWrite(req, ck, w, utf8, env);
  }

  method SendAppend<C(!new)>(ck: AtmosChecksum<C>, uri: string, w: Write, offset: nat, utf8: bool, env: Env)
    returns (sent: Delivery)
    requires Working(ck) && ReadyToSend(w) && GoodEnv(env) && NulFree(uri)
    requires |ck.absorbed| + |BodyBytes(w.body)| < INT64_LIMIT && offset + |BodyBytes(w.body)| < INT64_LIMIT
    modifies ck, FilesOf(w)
    ensures Working(ck) && ck.absorbed == old(ck.absorbed) + old(BodyBytes(w.body))
    ensures sent.body == old(BodyBytes(w.body))
    ensures AnnouncedRange(sent.request.headers) == Some((offset, offset + |sent.body| - 1))
    ensures Delivered(sent, ck.hash, ck.alg, ck.absorbed, env)
    ensures ReadyToSend(w) && forall f :: f in FilesOf(w) ==> f.pos == old(f.pos) + |sent.body|
  {
    hide AnnouncedRange, StateText, Lawful, RangeHeader, Delivered, GoodEnv;
    var size := |BodyBytes(w.body)|;
    var req := new AtmosUpdateObjectRequest<C>(uri);
    req.SetRangeOffsetSize(offset, size);
    req.UpdateObject();
    assert req.parent.parent.headers == RangeHeader(offset, offset + size - 1);
    RangeUnrelated(offset, offset + size - 1);
    RangeIsGood(offset, offset + size - 1);
    sent := SendWrite(req.parent, ck, w, utf8, env);
  }

  lemma RangeIsGood(start: int, end: int)
    requires Int64(start) && Int64(end)
    ensures GoodLines(RangeHeader(start, end))
  {
    RangeNotCut(start, end);
    if start != -1 || end != -1 {
      RangeTextNulFree(start, end);
      hide RangeText, RangeLine;
      NamedLine(HTTP_HEADER_RANGE, "Bytes=" + RangeText(start, end));
    }
  }

  lemma RangeTextNulFree(start: int, end: int)
    ensures NulFree(RangeText(start, end))
  {
    DecimalIntNulFree(start);
    DecimalIntNulFree(end);
    hide DecimalInt;
  }

  lemma DecimalIntNulFree(n: int)
    ensures NulFree(DecimalInt(n))
  {
    var d := DecimalInt(n);
    assert forall i :: 0 <= i < |d| ==> '0' <= d[i] <= '9' || d[i] == '-';
  }

  // ---------------------------------------------------------------- the bodies of a run

  ghost function AllFiles(writes: seq<Write>): set<CFile> {
    set i | 0 <= i < |writes| && writes[i].body.FileBody? :: writes[i].body.file
  }

  ghost predicate AllReady(writes: seq<Write>)
    reads AllFiles(writes)
  {
    forall i :: 0 <= i < |writes| ==> ReadyToSend(writes[i])
  }

  predicate Takes(w: Write, f: CFile) { w.body.FileBody? && w.body.file == f }

  /** How far the requests from `i` to `k` move a file on, when request `j` sends `data[j]`. */
  function Moved(writes: seq<Write>, data: seq<seq<byte>>, i: nat, k: nat, f: CFile): nat
    requires i <= k <= |writes| && k <= |data|
    decreases k - i
  {
    if i == k then 0
    else (if Takes(writes[i], f) then |data[i]| else 0) + Moved(writes, data, i + 1, k, f)
  }

  /** What request `k` will send if `i` is the next request and its file stands at `pos`. */
  function DueAt(writes: seq<Write>, data: seq<seq<byte>>, i: nat, k: nat, pos: nat): seq<byte>
    requires i <= k < |writes| && k <= |data|
  {
    match writes[k].body
    case Memory(bytes) => bytes
    case FileBody(f, size) => AheadOf(f.data, pos + Moved(writes, data, i, k, f), size)
  }

  ghost function Due(writes: seq<Write>, data: seq<seq<byte>>, i: nat, k: nat): seq<byte>
    requires i <= k < |writes| && k <= |data|
    reads AllFiles(writes)
  {
    DueAt(writes, data, i, k, if writes[k].body.FileBody? then writes[k].body.file.pos else 0)
  }

  /** When request `i` has moved its file, the later ones will send what they would have sent. */
  lemma NextDue(writes: seq<Write>, data: seq<seq<byte>>, i: nat, k: nat, was: nat, now: nat)
    requires i < k < |writes| && k <= |data|
    requires writes[k].body.FileBody? ==>
               now == was + (if Takes(writes[i], writes[k].body.file) then |data[i]| else 0)
    ensures DueAt(writes, data, i + 1, k, now) == DueAt(writes, data, i, k, was)
  {
    hide AheadOf;
  }

  lemma DueNow(w: Write, data: seq<seq<byte>>, writes: seq<Write>, i: nat)
    requires i < |writes| && i <= |data| && writes[i] == w && ValidBody(w.body)
    ensures Due(writes, data, i, i) == BodyBytes(w.body)
  {
  }

  /** With request `i` next, `data` is what the requests from there on will send. */
  ghost predicate BodiesFrom(writes: seq<Write>, data: seq<seq<byte>>, i: nat)
    reads AllFiles(writes)
  {
    && |data| == |writes| && AllReady(writes)
    && forall k :: i <= k < |writes| ==> data[k] == Due(writes, data, i, k)
  }

  /** The bodies of the first `k` requests of a run. */
  ghost function Plan(writes: seq<Write>, k: nat): (data: seq<seq<byte>>)
    requires k <= |writes|
    reads AllFiles(writes)
    ensures |data| == k
  {
    if k == 0 then [] else var before := Plan(writes, k - 1); before + [Due(writes, before, 0, k - 1)]
  }

  lemma {:induction false} MovedSame(writes: seq<Write>, data: seq<seq<byte>>, other: seq<seq<byte>>, i: nat, k: nat,
      f: CFile)
    requires i <= k <= |writes| && k <= |data| && k <= |other| && data[..k] == other[..k]
    ensures Moved(writes, data, i, k, f) == Moved(writes, other, i, k, f)
    decreases k - i
  {
    if i < k {
      assert data[i] == data[..k][i] == other[..k][i] == other[i];
      MovedSame(writes, data, other, i + 1, k, f);
    }
  }

  lemma {:induction false} PlanPrefix(writes: seq<Write>, k: nat, n: nat)
    requires k <= n <= |writes|
    ensures Plan(writes, n)[..k] == Plan(writes, k)
    decreases n - k
  {
    hide Due;
    if k < n { PlanPrefix(writes, k, n - 1); }
  }

  lemma PlanAt(writes: seq<Write>, k: nat, n: nat)
    requires k < n <= |writes|
    ensures Plan(writes, n)[k] == Due(writes, Plan(writes, k), 0, k)
  {
    hide Due;
    PlanPrefix(writes, k + 1, n);
    assert Plan(writes, n)[k] == Plan(writes, n)[..k + 1][k];
  }

  lemma DueSame(writes: seq<Write>, data: seq<seq<byte>>, other: seq<seq<byte>>, k: nat)
    requires k < |writes| && k <= |data| && k <= |other| && data[..k] == other[..k]
    ensures Due(writes, data, 0, k) == Due(writes, other, 0, k)
  {
    hide AheadOf, Moved;
    if writes[k].body.FileBody? { MovedSame(writes, data, other, 0, k, writes[k].body.file); }
  }

  /** Every run has its bodies, whatever requests share a file. */
  lemma PlanIsBodies(writes: seq<Write>)
    requires AllReady(writes)
    ensures BodiesFrom(writes, Plan(writes, |writes|), 0)
  {
    hide Due, Plan;
    var data := Plan(writes, |writes|);
    forall k | 0 <= k < |writes|
      ensures data[k] == Due(writes, data, 0, k)
    {
      PlanAt(writes, k, |writes|);
      PlanPrefix(writes, k, |writes|);
      assert Plan(writes, k)[..k] == Plan(writes, k);
      DueSame(writes, data, Plan(writes, k), k);
    }
  }

  lemma {:induction false} FlattenPrefixLength(data: seq<seq<byte>>, k: nat)
    requires k <= |data|
    ensures |Flatten(data[..k])| <= |Flatten(data)|
    decreases |data| - k
  {
    if k < |data| {
      FlattenSnoc(data, k);
      FlattenPrefixLength(data, k + 1);
    } else {
      assert data[..k] == data;
    }
  }

  // ---------------------------------------------------------------- a run

  /** What request `k` of a run announces: nothing when it creates the object, and the bytes behind
      the end of the object when it appends. */
  function DueRange(data: seq<seq<byte>>, k: nat): (int, int)
    requires k < |data|
  {
    if k == 0 then (-1, -1) else (|Flatten(data[..k])|, |Flatten(data[..k + 1])| - 1)
  }

  /** Request `k` of a run, with everything the run promises about it. */
  ghost predicate Faithful<C>(sent: Delivery, h: Hash<C>, alg: Alg, data: seq<seq<byte>>, env: Env, k: nat)
    requires k < |data|
  {
    && sent.body == data[k]
    && AnnouncedRange(sent.request.headers) == Some(DueRange(data, k))
    && Delivered(sent, h, alg, Flatten(data[..k + 1]), env)
  }

  ghost predicate AllFaithful<C>(sent: seq<Delivery>, h: Hash<C>, alg: Alg, data: seq<seq<byte>>, envs: seq<Env>) {
    |sent| <= |data| == |envs| && forall k :: 0 <= k < |sent| ==> Faithful(sent[k], h, alg, data, envs[k], k)
  }

  lemma OneMoreFaithful<C>(sent: seq<Delivery>, s: Delivery, h: Hash<C>, alg: Alg, data: seq<seq<byte>>, envs: seq<Env>)
    requires AllFaithful(sent, h, alg, data, envs) && |sent| < |data| && Faithful(s, h, alg, data, envs[|sent|], |sent|)
    ensures AllFaithful(sent + [s], h, alg, data, envs)
  {
    hide Faithful;
    forall k | 0 <= k < |sent| + 1
      ensures Faithful((sent + [s])[k], h, alg, data, envs[k], k)
    {
      assert k < |sent| ==> (sent + [s])[k] == sent[k];
    }
  }

  /** Request `i` of a run. */
  method SendNext<C(!new)>(ck: AtmosChecksum<C>, uri: string, writes: seq<Write>, i: nat, total: nat, utf8: bool,
      env: Env,
      ghost data: seq<seq<byte>>)
    returns (sent: Delivery)
    requires i < |writes| && BodiesFrom(writes, data, i) && GoodEnv(env) && NulFree(uri)
    requires Working(ck) && ck.absorbed == Flatten(data[..i]) && total == |Flatten(data[..i])|
    requires |Flatten(data[..i])| + |data[i]| < INT64_LIMIT
    modifies ck, AllFiles(writes)
    ensures Working(ck) && ck.absorbed == Flatten(data[..i + 1])
    ensures BodiesFrom(writes, data, i + 1)
    ensures Faithful(sent, ck.hash, ck.alg, data, env, i)
  {
    hide Flatten, Delivered, AnnouncedRange, Working, GoodEnv, DueAt, BodyBytes;
    var w := writes[i];
    FlattenSnoc(data, i);
    assert FilesOf(w) <= AllFiles(writes);
    assert ReadyToSend(w);
    DueNow(w, data, writes, i);
    if i == 0 {
      assert data[..0] == [];
      sent := SendCreate(ck, w, utf8, env);
    } else {
      sent := SendAppend(ck, uri, w, total, utf8, env);
    }
    forall k | 0 <= k < |writes|
      ensures ReadyToSend(writes[k])
    {
      assert old(ReadyToSend(writes[k]));
      if writes[k].body.FileBody? && writes[k].body.file !in FilesOf(w) {
        assert writes[k].body.file.pos == old(writes[k].body.file.pos);
      }
    }
    forall k | i + 1 <= k < |writes|
      ensures data[k] == Due(writes, data, i + 1, k)
    {
      assert data[k] == old(Due(writes, data, i, k));
      if writes[k].body.FileBody? {
        NextDue(writes, data, i, k, old(writes[k].body.file.pos), writes[k].body.file.pos);
      } else {
        NextDue(writes, data, i, k, 0, 0);
      }
    }
  }

  /** A create and any number of appends, from any mixture of memory and files, shared or not. Request
      `k` sends what `Plan` says, is stamped with the algorithm, length and digest of everything sent so
      far, announces the bytes behind the end of the object, and is accepted by the server. */
  method CreateThenAppend<C(!new)>(ck: AtmosChecksum<C>, uri: string, writes: seq<Write>, utf8: bool, envs: seq<Env>)
    returns (sent: seq<Delivery>, ghost data: seq<seq<byte>>)
    requires Working(ck) && ck.absorbed == [] && NulFree(uri)
    requires AllReady(writes) && |Flatten(Plan(writes, |writes|))| < INT64_LIMIT
    requires |envs| == |writes| && forall k :: 0 <= k < |envs| ==> GoodEnv(envs[k])
    modifies ck, AllFiles(writes)
    ensures data == old(Plan(writes, |writes|))
    ensures Working(ck) && ck.absorbed == Flatten(data)
    ensures |sent| == |writes| && AllFaithful(sent, ck.hash, ck.alg, data, envs)
    ensures AllReady(writes)
  {
    hide GoodEnv, Faithful, Working, Plan, Flatten;
    data := Plan(writes, |writes|);
    PlanIsBodies(writes);
    sent := [];
    var total := 0;
    var i := 0;
    assert Flatten(data[..0]) == [] by { EmptyFlatten(data[..0]); }
    assert AllFaithful(sent, ck.hash, ck.alg, data, envs);
    hide AllFaithful, Due;
    while i < |writes|
      invariant 0 <= i <= |writes| && |sent| == i
      invariant Working(ck) && BodiesFrom(writes, data, i)
      invariant ck.absorbed == Flatten(data[..i]) && total == |Flatten(data[..i])|
      invariant AllFaithful(sent, ck.hash, ck.alg, data, envs)
    {
      FlattenSnoc(data, i);
      FlattenPrefixLength(data, i + 1);
      var s := SendNext(ck, uri, writes, i, total, utf8, envs[i], data);
      OneMoreFaithful(sent, s, ck.hash, ck.alg, data, envs);
      FaithfulParts(s, ck.hash, ck.alg, data, envs[i], i);
      sent := sent + [s];
      total := total + |s.body|;
      i := i + 1;
    }
    assert data[..i] == data;
  }

  lemma FaithfulParts<C>(sent: Delivery, h: Hash<C>, alg: Alg, data: seq<seq<byte>>, env: Env, k: nat)
    requires k < |data| && Faithful(sent, h, alg, data, env, k)
    ensures sent.body == data[k] && Stamped(sent.request.headers, h, alg, Flatten(data[..k + 1]))
  {
  }

  lemma EmptyFlatten(parts: seq<seq<byte>>)
    requires parts == []
    ensures Flatten(parts) == []
  {
  }

  // ---------------------------------------------------------------- one file in pieces

  function Total(sizes: seq<nat>, k: nat): nat
    requires k <= |sizes|
  {
    if k == 0 then 0 else Total(sizes, k - 1) + sizes[k - 1]
  }

  ghost predicate OneHandle(writes: seq<Write>, f: CFile, sizes: seq<nat>) {
    |writes| == |sizes| && forall i :: 0 <= i < |writes| ==> writes[i].body == FileBody(f, sizes[i])
  }

  lemma {:induction false} MovedAll(writes: seq<Write>, f: CFile, sizes: seq<nat>, data: seq<seq<byte>>, i: nat, k: nat)
    requires OneHandle(writes, f, sizes) && i <= k <= |writes| && k <= |data|
    ensures |Flatten(data[..i])| + Moved(writes, data, i, k, f) == |Flatten(data[..k])|
    decreases k - i
  {
    hide Flatten;
    if i < k {
      FlattenSnoc(data, i);
      MovedAll(writes, f, sizes, data, i + 1, k);
    }
  }

  lemma AheadOfAppend(data: seq<byte>, pos: nat, a: nat, b: nat)
    requires pos <= |data|
    ensures AheadOf(data, pos, a) + AheadOf(data, pos + |AheadOf(data, pos, a)|, b) == AheadOf(data, pos, a + b)
  {
  }

  /** The pieces of a file that is uploaded through one handle are consecutive. */
  lemma {:induction false} PiecesAreConsecutive(writes: seq<Write>, f: CFile, sizes: seq<nat>, k: nat)
    requires OneHandle(writes, f, sizes) && k <= |writes| && f.Valid()
    ensures Flatten(Plan(writes, k)) == AheadOf(f.data, f.pos, Total(sizes, k))
  {
    hide AheadOf, Flatten;
    if k == 0 {
      EmptyFlatten(Plan(writes, 0));
      NothingAhead(f.data, f.pos);
    } else {
      var before := Plan(writes, k - 1);
      PiecesAreConsecutive(writes, f, sizes, k - 1);
      MovedAll(writes, f, sizes, before, 0, k - 1);
      EmptyFlatten(before[..0]);
      assert before[..k - 1] == before && Plan(writes, k)[..k - 1] == before && Plan(writes, k)[..k] == Plan(writes, k);
      FlattenSnoc(Plan(writes, k), k - 1);
      AheadOfAppend(f.data, f.pos, Total(sizes, k - 1), sizes[k - 1]);
    }
  }

  lemma NothingAhead(data: seq<byte>, pos: nat)
    ensures AheadOf(data, pos, 0) == []
  {
  }

  /** A chunked upload: one open file, sent piece by piece. The object the server ends up with is the
      file from where the handle stood, and the last stamp is that of all of it. */
  method ChunkedUpload<C(!new)>(ck: AtmosChecksum<C>, uri: string, f: CFile, sizes: seq<nat>, utf8: bool,
      envs: seq<Env>)
    returns (sent: seq<Delivery>)
    requires Working(ck) && ck.absorbed == [] && NulFree(uri) && f.Valid() && f.canTell && f.canSeek
    requires |f.data| < INT64_LIMIT
    requires |envs| == |sizes| && forall k :: 0 <= k < |envs| ==> GoodEnv(envs[k])
    modifies ck, f
    ensures Working(ck) && ck.absorbed == AheadOf(f.data, old(f.pos), Total(sizes, |sizes|))
    ensures |sent| == |sizes|
    ensures sizes != [] ==> Stamped(sent[|sizes| - 1].request.headers, ck.hash, ck.alg, ck.absorbed)
    ensures Replayed(sent, |sent|) == Some(ck.absorbed)
    ensures sizes != [] ==> ServerAccepts(sent[|sizes| - 1].request, envs[|sizes| - 1].sign)
  {
    hide Working, GoodEnv, AheadOf, Plan, Flatten;
    var writes := seq(|sizes|, i requires 0 <= i < |sizes| => Write(FileBody(f, sizes[i]), [], [], []));
    assert OneHandle(writes, f, sizes);
    assert AllFiles(writes) <= {f};
    PiecesAreConsecutive(writes, f, sizes, |sizes|);
    AheadIsShort(f.data, f.pos, Total(sizes, |sizes|));
    ghost var data;
    sent, data := CreateThenAppend(ck, uri, writes, utf8, envs);
    assert data[..|sizes|] == data;
    RunBuildsStampedObject(sent, ck.hash, ck.alg, data, envs, |sizes|);
    if |sizes| > 0 {
      assert Faithful(sent[|sizes| - 1], ck.hash, ck.alg, data, envs[|sizes| - 1], |sizes| - 1);
    }
  }

  lemma AheadIsShort(data: seq<byte>, pos: nat, count: nat)
    ensures |AheadOf(data, pos, count)| <= |data|
  {
  }

  // ---------------------------------------------------------------- what the ranges do on the server

  /** The bytes a server takes a request to be about: the whole body from 0 on for a create, up to
      the end of the body for an open range. */
  function Target(sent: Delivery): Option<(int, int)> {
    var range := AnnouncedRange(sent.request.headers);
    if range.None? then None
    else if range.value == (-1, -1) then Some((0, |sent.body| - 1))
    else if range.value.1 == -1 then Some((range.value.0, range.value.0 + |sent.body| - 1))
    else range
  }

  predicate Writes(sent: Delivery, offset: int) {
    var target := Target(sent);
    target.Some? && target.value.0 <= offset <= target.value.1
  }

  lemma TargetIs<C>(sent: Delivery, h: Hash<C>, alg: Alg, data: seq<seq<byte>>, env: Env, k: nat)
    requires k < |data| && Faithful(sent, h, alg, data, env, k)
    ensures Target(sent) == Some((|Flatten(data[..k])|, |Flatten(data[..k + 1])| - 1))
    ensures |Flatten(data[..k + 1])| == |Flatten(data[..k])| + |sent.body|
  {
    hide AnnouncedRange, Delivered;
    FlattenSnoc(data, k);
    if k == 0 { assert data[..0] == []; }
  }

  lemma {:induction false} StartsIncrease(data: seq<seq<byte>>, j: nat, k: nat)
    requires j <= k <= |data|
    ensures |Flatten(data[..j])| <= |Flatten(data[..k])|
    decreases k - j
  {
    if j < k {
      FlattenSnoc(data, j);
      StartsIncrease(data, j + 1, k);
    }
  }

  /** The piece of the object that holds a byte. */
  lemma {:induction false} SomePieceHolds(data: seq<seq<byte>>, offset: nat) returns (k: nat)
    requires offset < |Flatten(data)|
    ensures k < |data| && |Flatten(data[..k])| <= offset < |Flatten(data[..k + 1])|
  {
    var last := |data| - 1;
    assert data[..last + 1] == data;
    FlattenSnoc(data, last);
    if offset >= |Flatten(data[..last])| {
      k := last;
    } else {
      k := SomePieceHolds(data[..last], offset);
      assert data[..last][..k] == data[..k] && data[..last][..k + 1] == data[..k + 1];
    }
  }

  /** The ranges that are sent tile the object: every byte of it is written by exactly one request. */
  lemma RangesTile<C>(sent: seq<Delivery>, h: Hash<C>, alg: Alg, data: seq<seq<byte>>, envs: seq<Env>, offset: nat)
    requires |sent| == |data| && AllFaithful(sent, h, alg, data, envs) && offset < |Flatten(data)|
    ensures exists k :: 0 <= k < |sent| && Writes(sent[k], offset)
    ensures forall j, k ::
              0 <= j < |sent| && 0 <= k < |sent| && Writes(sent[j], offset) && Writes(sent[k], offset) ==> j == k
  {
    hide Target, Flatten, Faithful;
    var k := SomePieceHolds(data, offset);
    TargetIs(sent[k], h, alg, data, envs[k], k);
    assert Writes(sent[k], offset);
    forall i, j | 0 <= i < j < |sent|
      ensures !(Writes(sent[i], offset) && Writes(sent[j], offset))
    {
      TargetIs(sent[i], h, alg, data, envs[i], i);
      TargetIs(sent[j], h, alg, data, envs[j], j);
      StartsIncrease(data, i + 1, j);
    }
  }

  /** A server that writes `bytes` over its object from `start` on. */
  function Overwrite(content: seq<byte>, start: nat, bytes: seq<byte>): seq<byte>
    requires start <= |content|
  {
    content[..start] + bytes + (if start + |bytes| < |content| then content[start + |bytes|..] else [])
  }

  /** What a server holds after the first `k` requests, writing each body where the request's header
      lines say; None if they cannot be read, leave a gap, or name another number of bytes. */
  function Replayed(sent: seq<Delivery>, k: nat): Option<seq<byte>>
    requires k <= |sent|
  {
    if k == 0 then Some([])
    else
      var before, target, body := Replayed(sent, k - 1), Target(sent[k - 1]), sent[k - 1].body;
      if before.None? || target.None? then None
      else
        var (first, last) := target.value;
        if !(0 <= first <= |before.value|) || last - first + 1 != |body| then None
        else Some(Overwrite(before.value, first, body))
  }

  lemma OverwriteAtEnd(content: seq<byte>, bytes: seq<byte>)
    ensures Overwrite(content, |content|, bytes) == content + bytes
  {
  }

  /** Replaying a run builds, request by request, the object each stamp speaks about. */
  lemma {:induction false} RunBuildsStampedObject<C>(sent: seq<Delivery>, h: Hash<C>, alg: Alg, data: seq<seq<byte>>,
      envs: seq<Env>, k: nat)
    requires k <= |sent| == |data| && AllFaithful(sent, h, alg, data, envs)
    ensures Replayed(sent, k) == Some(Flatten(data[..k]))
    ensures k > 0 ==> Stamped(sent[k - 1].request.headers, h, alg, Replayed(sent, k).value)
  {
    hide Target, Flatten, Stamped, Faithful, Overwrite;
    if k > 0 {
      RunBuildsStampedObject(sent, h, alg, data, envs, k - 1);
      TargetIs(sent[k - 1], h, alg, data, envs[k - 1], k - 1);
      FaithfulParts(sent[k - 1], h, alg, data, envs[k - 1], k - 1);
      FlattenSnoc(data, k - 1);
      OverwriteAtEnd(Flatten(data[..k - 1]), data[k - 1]);
    } else {
      EmptyFlatten(data[..0]);
    }
  }

  /** An append names both ends of its range, unless it is empty and the object still is: then the
      last byte would be number -1, and the line is `Bytes=0-` with an open end. */
  lemma ClosedRangeIff(offset: nat, size: nat)
    requires offset + size < INT64_LIMIT
    ensures RangeHeader(offset, offset + size - 1) ==
              [HTTP_HEADER_RANGE + ": " + ("Bytes=" + (DecimalInt(offset) + "-" + DecimalInt(offset + size - 1)))]
            <==> offset + size != 0
    ensures offset + size == 0 ==> RangeHeader(offset, offset + size - 1) == [HTTP_HEADER_RANGE + ": Bytes=0-"]
  {
    RangeNotCut(offset, offset + size - 1);
    if offset + size == 0 {
      assert DecimalInt(0) == "0" && |DecimalInt(-1)| == 2;
      assert HTTP_HEADER_RANGE + ": " + ("Bytes=" + ("0" + "-")) == HTTP_HEADER_RANGE + ": Bytes=0-";
    }
  }
}
