/** Write requests: the header filter `AtmosFilter_set_write_headers`, ranged updates, and the
    protocol of creating an object and appending to it with one checksum object. */
module WriteRequest {
  import opened CStrings
  import opened Rest
  import opened MetadataCodec
  import AclCodec
  import opened Checksum
  import opened Ranges

  const ATMOS_HEADER_WSCHECKSUM := "x-emc-wschecksum"
  const ATMOS_HEADER_GENERATE_CHECKSUM := "x-emc-generate-checksum"
  const FTELL_NOT_SUPPORTED: nat := 601
  const FSEEK_NOT_SUPPORTED: nat := 602
  const CHECKSUM_FAILED: nat := 603

  datatype Body = Memory(bytes: seq<byte>) | FileBody(file: CFile, size: nat)

  /** What a filter did: pass the request on, or give up with an API error. */
  datatype Outcome = Next | Failed(code: nat)

  ghost predicate ValidBody(body: Body)
    reads if body.FileBody? then {body.file} else {}
  {
    body.FileBody? ==> body.file.Valid()
  }

  /** The bytes that will be sent. */
  function BodyBytes(body: Body): seq<byte>
    requires ValidBody(body)
    reads if body.FileBody? then {body.file} else {}
  {
    match body
    case Memory(bytes) => bytes
    case FileBody(file, size) => file.Ahead(size)
  }

  predicate Seekable(body: Body) { body.FileBody? ==> body.file.canTell && body.file.canSeek }

  /** How the attempt to checksum a body before it is sent ends; `finishes` says whether a digest
      comes out. */
  function Attempt(body: Body, finishes: bool): (outcome: Outcome)
    ensures outcome == Next <==> Seekable(body) && finishes
  {
    if body.FileBody? && !body.file.canTell then Failed(FTELL_NOT_SUPPORTED)
    else if body.FileBody? && !body.file.canSeek then Failed(FSEEK_NOT_SUPPORTED)
    else if !finishes then Failed(CHECKSUM_FAILED)
    else Next
  }

  /** The three failures, with their codes. */
  lemma AttemptCodes(body: Body, finishes: bool)
    ensures body.FileBody? && !body.file.canTell ==> Attempt(body, finishes) == Failed(601)
    ensures body.FileBody? && body.file.canTell && !body.file.canSeek ==> Attempt(body, finishes) == Failed(602)
    ensures (body.Memory? || (body.file.canTell && body.file.canSeek)) ==>
              Attempt(body, finishes) == if finishes then Next else Failed(603)
  {
  }

  function Stamp(state: string): string {
    Truncate(ATMOS_HEADER_WSCHECKSUM + ": " + state, ATMOS_SIMPLE_HEADER_MAX)
  }

  function StampLine<C>(h: Hash<C>, alg: Alg, data: seq<byte>): string { Stamp(StateText(h, alg, data)) }

  lemma StampIs<C>(h: Hash<C>, alg: Alg, data: seq<byte>)
    ensures Stamp(StateText(h, alg, data)) == StampLine(h, alg, data)
  {
  }

  function ContentTypeHeader(hasBody: bool): seq<string> {
    if hasBody then [] else [HTTP_HEADER_CONTENT_TYPE + ": application/octet-stream"]
  }

  function ModeHeader(utf8: bool): seq<string> {
    if utf8 then [ATMOS_HEADER_UTF8 + ": true"] else []
  }

  /** The lines the filter adds before it comes to the checksum. */
  function PlainHeaders(meta: seq<Metadata>, listable: seq<Metadata>, acl: seq<AclCodec.AclEntry>, hasBody: bool,
      utf8: bool): seq<string> {
    ContentTypeHeader(hasBody) + MetaHeader(meta, false, utf8) + MetaHeader(listable, true, utf8)
    + ModeHeader(utf8) + AclCodec.AclHeaders(acl)
  }

  function GenerateLine(alg: Alg): string {
    Truncate(ATMOS_HEADER_GENERATE_CHECKSUM + ": " + AlgName(alg), ATMOS_SIMPLE_HEADER_MAX)
  }

  /** Whether the checksum branch of a filter run still has something to do. */
  predicate Unstamped(headers: seq<string>, mode: Mode) {
    HeaderValue(headers, if mode == WsChecksum then ATMOS_HEADER_WSCHECKSUM else ATMOS_HEADER_GENERATE_CHECKSUM).None?
  }

  class AtmosWriteObjectRequest<C(!new)> {
    const parent: RestRequest
    var meta: seq<Metadata>
    var listable_meta: seq<Metadata>
    var acl: seq<AclCodec.AclEntry>
    var checksum: AtmosChecksum?<C>
    var request_body: Option<Body>
    var file_filter: bool

    constructor (uri: string, verb: HttpMethod)
      ensures fresh(parent) && parent.View() == Request(verb, uri, [])
      ensures meta == [] && listable_meta == [] && acl == [] && checksum == null && request_body == None && !file_filter
    {
      parent := new RestRequest(uri, verb);
      meta, listable_meta, acl, checksum, request_body, file_filter := [], [], [], null, None, false;
    }

    ghost predicate Valid()
      reads this, checksum, Files()
    {
      && CEntries(meta) && CEntries(listable_meta)
      && (forall i :: 0 <= i < |acl| ==> NulFree(acl[i].principal))
      && (checksum != null ==> checksum.Valid())
      && (request_body.Some? ==> ValidBody(request_body.value))
    }

    method SetContentType()
      modifies parent`headers
      ensures parent.headers == old(parent.headers) + ContentTypeHeader(request_body.Some?)
    {
      if request_body.None? {
        parent.AddHeader(HTTP_HEADER_CONTENT_TYPE + ": application/octet-stream");
      } else {
        assert parent.headers + [] == parent.headers;
      }
    }

    method SetMode(utf8: bool)
      modifies parent`headers
      ensures parent.headers == old(parent.headers) + ModeHeader(utf8)
    {
      if utf8 {
        parent.AddHeader(ATMOS_HEADER_UTF8 + ": true");
      } else {
        assert parent.headers + [] == parent.headers;
      }
    }

    function Plain(utf8: bool): seq<string>
      reads this
    {
      PlainHeaders(meta, listable_meta, acl, request_body.Some?, utf8)
    }

    method SetPlainHeaders(utf8: bool)
      requires Valid()
      modifies parent`headers
      ensures parent.headers == old(parent.headers) + Plain(utf8)
    {
      SetContentType();
      SetMetadataHeader(meta, false, utf8, parent);
      SetMetadataHeader(listable_meta, true, utf8, parent);
      SetMode(utf8);
      AclCodec.SetAclHeader(acl, parent);
      Regroup5(old(parent.headers), ContentTypeHeader(request_body.Some?), MetaHeader(meta, false, utf8),
               MetaHeader(listable_meta, true, utf8), ModeHeader(utf8), AclCodec.AclHeaders(acl));
    }

    /** The body absorbed before it is sent. A file is put back where it was, so that the bytes
        absorbed are the bytes sent; where it cannot be put back they are absorbed all the same. */
    method AbsorbBody(body: Body) returns (outcome: Outcome)
      requires checksum != null && checksum.Valid() && ValidBody(body)
      modifies checksum, if body.FileBody? then {body.file} else {}
      ensures checksum.Valid() && ValidBody(body)
      ensures outcome == Attempt(body, true)
      ensures body.FileBody? ==>
                body.file.pos == old(body.file.pos) +
                  (if outcome == Failed(FSEEK_NOT_SUPPORTED) then |old(BodyBytes(body))| else 0)
      ensures checksum.absorbed == old(checksum.absorbed) +
                (if outcome == Failed(FTELL_NOT_SUPPORTED) then [] else old(BodyBytes(body)))
    {
      match body
      case Memory(bytes) =>
        checksum.Update(bytes);
        return Next;
      case FileBody(f, size) =>
        if !f.canTell {
          assert checksum.absorbed == checksum.absorbed + [];
          return Failed(FTELL_NOT_SUPPORTED);
        }
        var cur := f.pos;
        checksum.UpdateFile(f, size);
        if !f.canSeek { return Failed(FSEEK_NOT_SUPPORTED); }
        f.pos := cur;
        return Next;
    }

    /** The `x-emc-wschecksum` branch. */
    method StampWs(body: Body) returns (outcome: Outcome)
      requires Valid() && checksum != null && request_body == Some(body)
      modifies parent`headers, checksum, if body.FileBody? then {body.file} else {}
      ensures Valid() && checksum == old(checksum)
      ensures outcome == Attempt(body, Finishes(checksum.hash, old(checksum.absorbed + BodyBytes(body))))
      ensures checksum.absorbed == old(checksum.absorbed) +
                (if outcome == Failed(FTELL_NOT_SUPPORTED) then [] else old(BodyBytes(body)))
      ensures parent.headers == old(parent.headers) +
                (if outcome == Next then [StampLine(checksum.hash, checksum.alg, checksum.absorbed)] else [])
      ensures body.FileBody? ==>
                body.file.pos == old(body.file.pos) +
                  (if outcome == Failed(FSEEK_NOT_SUPPORTED) then |old(BodyBytes(body))| else 0)
    {
      hide StampLine, Finishes;
      outcome := AbsorbBody(body);
      if outcome == Next {
        var state := checksum.GetState();
        if state.None? {
          assert parent.headers + [] == parent.headers;
          return Failed(CHECKSUM_FAILED);
        }
        parent.AddHeader(Stamp(state.value));
        StampIs(checksum.hash, checksum.alg, checksum.absorbed);
      } else {
        assert parent.headers + [] == parent.headers;
      }
    }

    /** The `x-emc-generate-checksum` branch: a body in memory is absorbed now, a file while it is
        sent, by the filter the request is given here. */
    method StampGenerate()
      requires Valid() && checksum != null
      modifies parent`headers, this`file_filter, checksum
      ensures Valid() && checksum == old(checksum)
      ensures parent.headers == old(parent.headers) + [GenerateLine(checksum.alg)]
      ensures checksum.absorbed == old(checksum.absorbed) +
                (if request_body.Some? && request_body.value.Memory? then request_body.value.bytes else [])
      ensures file_filter <==> old(file_filter) || (request_body.Some? && request_body.value.FileBody?)
    {
      parent.AddHeader(GenerateLine(checksum.alg));
      if request_body.Some? && request_body.value.Memory? {
        checksum.Update(request_body.value.bytes);
      } else {
        if request_body.Some? { file_filter := true; }
        assert checksum.absorbed + [] == checksum.absorbed;
      }
    }

    /** The file the checksum branch may read. */
    ghost function Files(): set<CFile>
      reads this
    {
      if request_body.Some? && request_body.value.FileBody? then {request_body.value.file} else {}
    }

    /** The checksum branch has something to do for a request with these lines. */
    predicate Due(headers: seq<string>)
      reads this
    {
      checksum != null && Unstamped(headers, checksum.mode)
    }

    predicate DueIn(mode: Mode, headers: seq<string>)
      reads this
    {
      Due(headers) && checksum.mode == mode
    }

    /** The header lines of a request when the filter comes to the checksum. */
    function Reached(utf8: bool): seq<string>
      reads this, parent
    {
      parent.headers + Plain(utf8)
    }

    /** How a run of the filter will end. */
    ghost function Verdict(utf8: bool): Outcome
      requires Valid()
      reads this, parent, checksum, Files()
    {
      if DueIn(WsChecksum, Reached(utf8)) && request_body.Some? then
        Attempt(request_body.value, Finishes(checksum.hash, checksum.absorbed + BodyBytes(request_body.value)))
      else Next
    }

    /** The checksum line a run that succeeds will add. */
    ghost function ChecksumLines(utf8: bool): seq<string>
      requires Valid()
      reads this, parent, checksum, Files()
    {
      if DueIn(WsChecksum, Reached(utf8)) && request_body.Some? then
        [StampLine(checksum.hash, checksum.alg, checksum.absorbed + BodyBytes(request_body.value))]
      else if DueIn(GenerateChecksum, Reached(utf8)) then [GenerateLine(checksum.alg)]
      else []
    }

    /** The bytes a run will absorb. With no position to go back to, nothing is read; with one that
        cannot be gone back to, and with a digest that does not come out, the body has been absorbed. */
    ghost function ToAbsorb(utf8: bool): seq<byte>
      requires Valid()
      reads this, parent, checksum, Files()
    {
      if DueIn(WsChecksum, Reached(utf8)) && request_body.Some? && Verdict(utf8) != Failed(FTELL_NOT_SUPPORTED) then
        BodyBytes(request_body.value)
      else if DueIn(GenerateChecksum, Reached(utf8)) && request_body.Some? && request_body.value.Memory? then
        request_body.value.bytes
      else []
    }

    /** A run will give the request its file filter. */
    predicate Installs(utf8: bool)
      reads this, parent
    {
      DueIn(GenerateChecksum, Reached(utf8)) && request_body.Some? && request_body.value.FileBody?
    }

    /** `AtmosFilter_set_write_headers` up to the call of the next filter, which runs on `Next`
        only. Once a request carries the header of its mode, the checksum is left alone. */
    method SetWriteHeaders(utf8: bool) returns (outcome: Outcome)
      requires Valid()
      modifies parent`headers, this`file_filter, checksum, Files()
      ensures Valid()
      ensures outcome == old(Verdict(utf8))
      ensures parent.headers == old(Reached(utf8)) + (if outcome == Next then old(ChecksumLines(utf8)) else [])
      ensures checksum != null ==> checksum.absorbed == old(checksum.absorbed) + old(ToAbsorb(utf8))
      ensures forall f :: f in Files() ==>
                f.pos == old(f.pos) + (if outcome == Failed(FSEEK_NOT_SUPPORTED) then |old(ToAbsorb(utf8))| else 0)
      ensures file_filter == old(file_filter || Installs(utf8))
    {
      hide PlainHeaders, HeaderValue, StampLine, GenerateLine, BodyBytes, Finishes;
      SetPlainHeaders(utf8);
      assert parent.headers == old(Reached(utf8)) && parent.headers + [] == parent.headers;
      assert checksum != null ==> checksum.absorbed + [] == checksum.absorbed;
      outcome := Next;
      if checksum != null && checksum.mode == WsChecksum && HeaderValue(parent.headers, ATMOS_HEADER_WSCHECKSUM).None? {
        if request_body.Some? {
          outcome := StampWs(request_body.value);
        }
      } else if checksum != null && checksum.mode == GenerateChecksum
          && HeaderValue(parent.headers, ATMOS_HEADER_GENERATE_CHECKSUM).None? {
        StampGenerate();
      }
    }

    /** Everything the checksum object, if there is one, has absorbed. */
    ghost function Absorbed(): seq<byte>
      reads this, checksum
    {
      if checksum != null then checksum.absorbed else []
    }

    /** The bytes of the body as they stand. */
    ghost function BodyToSend(): seq<byte>
      requires Valid()
      reads this, checksum, Files()
    {
      if request_body.Some? then BodyBytes(request_body.value) else []
    }

    /** The file filter absorbs what is sent. */
    predicate Filtering()
      reads this
    {
      file_filter && checksum != null && request_body.Some? && request_body.value.FileBody?
    }

    /** One piece of the file read, and handed to `AtmosWriteObjectRequest_checksum_filter` if the
        request has that filter. */
    method TransmitPiece(f: CFile, left: nat) returns (piece: seq<byte>)
      requires Valid() && request_body.Some? && request_body.value.FileBody? && request_body.value.file == f
      modifies checksum, f
      ensures Valid() && f.pos == old(f.pos) + |piece| && piece == f.data[old(f.pos)..f.pos]
      ensures |piece| <= left && (piece == [] <==> left == 0 || old(f.pos) == |f.data|)
      ensures Absorbed() == old(Absorbed()) + (if Filtering() then piece else [])
    {
      piece := f.Fread(left);
      if file_filter && checksum != null {
        checksum.Update(piece);
      } else {
        assert Absorbed() + [] == Absorbed();
      }
    }

    /** The transport sends the body. It reads a file from where it stands, in pieces of any size,
        and leaves it behind the last byte sent. */
    method Transmit() returns (sent: seq<byte>)
      requires Valid()
      modifies checksum, Files()
      ensures Valid()
      ensures sent == old(BodyToSend())
      ensures forall f :: f in Files() ==> f.pos == old(f.pos) + |sent|
      ensures Absorbed() == old(Absorbed()) + (if Filtering() then sent else [])
    {
      assert Absorbed() + [] == Absorbed();
      sent := [];
      if request_body.Some? {
        match request_body.value
        case Memory(bytes) => sent := bytes;
        case FileBody(f, size) => sent := TransmitFile(f, size);
      }
    }

    method TransmitFile(f: CFile, size: nat) returns (sent: seq<byte>)
      requires Valid() && request_body == Some(FileBody(f, size))
      modifies checksum, f
      ensures Valid() && sent == old(f.Ahead(size)) && f.pos == old(f.pos) + |sent|
      ensures Absorbed() == old(Absorbed()) + (if Filtering() then sent else [])
    {
      ghost var start := f.pos;
      sent := [];
      while true
        invariant Valid() && f.pos == start + |sent| && |sent| <= size
        invariant sent == f.data[start..f.pos]
        invariant Absorbed() == old(Absorbed()) + (if Filtering() then sent else [])
        decreases size - |sent|
      {
        ghost var before := sent;
        var piece := TransmitPiece(f, size - |sent|);
        sent := sent + piece;
        Longer(old(Absorbed()), before, piece);
        if piece == [] { break; }
      }
    }
  }

  lemma Longer(base: seq<byte>, before: seq<byte>, piece: seq<byte>)
    ensures base + before + piece == base + (before + piece)
    ensures base + [] + [] == base + []
  {
  }

  lemma Regroup5(h: seq<string>, a: seq<string>, b: seq<string>, c: seq<string>, d: seq<string>, e: seq<string>)
    ensures h + a + b + c + d + e == h + (a + b + c + d + e)
  {
  }

  // ---------------------------------------------------------------- nothing is cut off

  /** Up to the largest offset an `int64_t` holds, the stamp fits its buffer. */
  lemma StampNotCut<C(!new)>(h: Hash<C>, alg: Alg, data: seq<byte>)
    requires Lawful(h, alg) && |data| < INT64_LIMIT
    ensures StampLine(h, alg, data) == ATMOS_HEADER_WSCHECKSUM + ": " + StateText(h, alg, data)
  {
    Int64Digits(|data|);
    assert |Digest(h, data)| == DigestLength(alg);
    assert |ATMOS_HEADER_WSCHECKSUM + ": " + StateText(h, alg, data)| < 255;
  }

  // ---------------------------------------------------------------- ranged updates

  class AtmosUpdateObjectRequest<C(!new)> {
    const parent: AtmosWriteObjectRequest<C>
    var range_start: int
    var range_end: int

    constructor (uri: string)
      ensures fresh(parent) && fresh(parent.parent) && parent.parent.View() == Request(Put, uri, [])
      ensures parent.meta == [] && parent.listable_meta == [] && parent.acl == []
      ensures parent.checksum == null && parent.request_body == None && !parent.file_filter
      ensures range_start == -1 && range_end == -1
    {
      parent := new AtmosWriteObjectRequest<C>(uri, Put);
      range_start, range_end := -1, -1;
    }

    method SetRange(range_start: int, range_end: int)
      modifies this
      ensures this.range_start == range_start && this.range_end == range_end
    {
      this.range_start := range_start;
      this.range_end := range_end;
    }

    method SetRangeOffsetSize(offset: int, size: int)
      modifies this
      ensures range_start == offset && range_end == offset + size - 1
    {
      range_start := offset;
      range_end := offset + size - 1;
    }

    /** `AtmosFilter_update_object` up to the call of the next filter. Whoever reads the request finds
        the two ends in it. */
    method UpdateObject()
      modifies parent.parent`headers
      ensures parent.parent.headers == old(parent.parent.headers) + RangeHeader(range_start, range_end)
      ensures HeaderValue(old(parent.parent.headers), HTTP_HEADER_RANGE).None? ==>
                Int64(range_start) && Int64(range_end) ==>
                  AnnouncedRange(parent.parent.headers) == Some((range_start, range_end))
    {
      if HeaderValue(parent.parent.headers, HTTP_HEADER_RANGE).None? && Int64(range_start) && Int64(range_end) {
        RangeAnnounced(parent.parent.headers, range_start, range_end, []);
      }
      assert parent.parent.headers + RangeHeader(range_start, range_end) + []
          == parent.parent.headers + RangeHeader(range_start, range_end);
      var name := HTTP_HEADER_RANGE + ": ";
      if range_start != -1 && range_end != -1 {
        AddLine(name + ("Bytes=" + (DecimalInt(range_start) + "-" + DecimalInt(range_end))));
      } else if range_start != -1 {
        AddLine(name + ("Bytes=" + (DecimalInt(range_start) + "-")));
      } else if range_end != -1 {
        AddLine(name + ("Bytes=" + ("-" + DecimalInt(range_end))));
      } else {
        assert parent.parent.headers + [] == parent.parent.headers;
      }
    }

    /** `snprintf` into a buffer of a header's size, and `RestRequest_add_header`. */
    method AddLine(text: string)
      modifies parent.parent`headers
      ensures parent.parent.headers == old(parent.parent.headers) + [Truncate(text, ATMOS_SIMPLE_HEADER_MAX)]
    {
      parent.parent.AddHeader(Truncate(text, ATMOS_SIMPLE_HEADER_MAX));
    }
  }
}
