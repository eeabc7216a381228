/** What is in the lines the write filter adds: they are C strings with a colon, and they answer no
    lookup of a range, of a signature or, but for the checksum itself, of a checksum. */
module WriteLines {
  import opened CStrings
  import opened PercentEncoding
  import opened Rest
  import opened MetadataCodec
  import AclCodec
  import opened Checksum
  import opened WriteRequest
  import opened Canonical
  import opened FilterChain

  // ---------------------------------------------------------------- proper lines

  ghost predicate GoodLines(lines: seq<string>) { forall line :: line in lines ==> GoodLine(line) }

  lemma NamedLine(name: string, text: string)
    requires NulFree(name) && NulFree(text)
    ensures GoodLine(name + ": " + text)
  {
    assert (name + ": " + text)[|name|] == ':';
  }

  lemma CutLine(name: string, text: string)
    requires NulFree(name) && NulFree(text) && |name| < 100
    ensures GoodLine(Truncate(name + ": " + text, ATMOS_SIMPLE_HEADER_MAX))
    ensures HasName(Truncate(name + ": " + text, ATMOS_SIMPLE_HEADER_MAX), name)
  {
    var whole := name + ": " + text;
    var line := Truncate(whole, ATMOS_SIMPLE_HEADER_MAX);
    assert line[|name|] == whole[|name|] == ':' && line[..|name|] == whole[..|name|] == name;
  }

  lemma {:induction false} MetaTextNulFree(meta: seq<Metadata>, utf8: bool, i: nat)
    requires CEntries(meta) && i <= |meta|
    ensures NulFree(MetaText(meta, utf8, i))
    decreases |meta| - i
  {
    hide Encode, Rejected;
    if i < |meta| {
      MetaTextNulFree(meta, utf8, i + 1);
      EncodedWithout(meta[i].name, NUL);
      EncodedWithout(meta[i].value, NUL);
    }
  }

  lemma {:induction false} AclTextNulFree(acl: seq<AclCodec.AclEntry>, i: nat, kind: AclCodec.PrincipalType,
      first: bool)
    requires i <= |acl| && forall k :: 0 <= k < |acl| ==> NulFree(acl[k].principal)
    ensures NulFree(AclCodec.AclText(acl, i, kind, first))
    decreases |acl| - i
  {
    if i < |acl| {
      AclTextNulFree(acl, i + 1, kind, false);
      AclTextNulFree(acl, i + 1, kind, first);
    }
  }

  lemma MetaLinesGood(meta: seq<Metadata>, listable: bool, utf8: bool)
    requires CEntries(meta)
    ensures GoodLines(MetaHeader(meta, listable, utf8))
  {
    hide MetaText;
    MetaTextNulFree(meta, utf8, 0);
    NamedLine(MetaHeaderName(listable), MetaText(meta, utf8, 0));
  }

  lemma AclLinesGood(acl: seq<AclCodec.AclEntry>, kind: AclCodec.PrincipalType)
    requires forall k :: 0 <= k < |acl| ==> NulFree(acl[k].principal)
    ensures GoodLines(AclCodec.AclHeader(acl, kind))
  {
    AclTextNulFree(acl, 0, kind, true);
    AclCodec.AclHeaderText(acl, kind);
    var es := AclCodec.Selected(acl, kind);
    if es != [] {
      var line := AclCodec.AclHeader(acl, kind)[0];
      var name := AclCodec.HeaderName(kind);
      assert line[|name|] == ':';
    }
  }

  lemma GoodAppend(a: seq<string>, b: seq<string>)
    requires GoodLines(a) && GoodLines(b)
    ensures GoodLines(a + b)
  {
  }

  lemma FixedLinesGood(hasBody: bool, utf8: bool)
    ensures GoodLines(ContentTypeHeader(hasBody)) && GoodLines(ModeHeader(utf8))
  {
    var content: string, mode: string := HTTP_HEADER_CONTENT_TYPE + ": application/octet-stream",
        ATMOS_HEADER_UTF8 + ": true";
    assert content[12] == ':' && mode[10] == ':';
  }

  lemma PlainLinesGood(meta: seq<Metadata>, listable: seq<Metadata>, acl: seq<AclCodec.AclEntry>, hasBody: bool,
      utf8: bool)
    requires CEntries(meta) && CEntries(listable) && forall k :: 0 <= k < |acl| ==> NulFree(acl[k].principal)
    ensures GoodLines(PlainHeaders(meta, listable, acl, hasBody, utf8))
  {
    MetaLinesGood(meta, false, utf8);
    MetaLinesGood(listable, true, utf8);
    AclLinesGood(acl, AclCodec.User);
    AclLinesGood(acl, AclCodec.Group);
    FixedLinesGood(hasBody, utf8);
    hide MetaHeader, AclCodec.AclHeader, GoodLines, ContentTypeHeader, ModeHeader;
    var a, b, c := ContentTypeHeader(hasBody), MetaHeader(meta, false, utf8), MetaHeader(listable, true, utf8);
    var d, e, f := ModeHeader(utf8), AclCodec.AclHeader(acl, AclCodec.User), AclCodec.AclHeader(acl, AclCodec.Group);
    GoodAppend(a, b);
    GoodAppend(a + b, c);
    GoodAppend(a + b + c, d);
    GoodAppend(e, f);
    GoodAppend(a + b + c + d, e + f);
  }

  lemma StampLineGood<C(!new)>(h: Hash<C>, alg: Alg, data: seq<byte>)
    ensures GoodLine(StampLine(h, alg, data)) && HasName(StampLine(h, alg, data), ATMOS_HEADER_WSCHECKSUM)
  {
    hide Decimal, Hex, Digest;
    CutLine(ATMOS_HEADER_WSCHECKSUM, StateText(h, alg, data));
  }

  lemma GenerateLineGood(alg: Alg)
    ensures GoodLine(GenerateLine(alg))
  {
    hide AlgName;
    CutLine(ATMOS_HEADER_GENERATE_CHECKSUM, AlgName(alg));
  }

  // ---------------------------------------------------------------- names

  /** The shape of the lines set before the checksum, and of the line that asks for one. */
  predicate PlainLine(line: string) {
    |line| > 6 && (line[0] == 'C' || (line[0] == 'x' && line[6] in "mlug"))
  }

  /** Names none of these lines has: of the range, the signature and the checksum. */
  predicate Foreign(name: string) {
    |name| > 0 && (ToLower(name[0]) == 'r' || (ToLower(name[0]) == 'x' && |name| > 6 && name[6] in "ws"))
  }

  lemma ForeignNames()
    ensures Foreign(HTTP_HEADER_RANGE) && Foreign(ATMOS_HEADER_SIGNATURE) && Foreign(ATMOS_HEADER_WSCHECKSUM)
  {
    assert ATMOS_HEADER_SIGNATURE[6] == 's' && ATMOS_HEADER_WSCHECKSUM[6] == 'w';
  }

  lemma PlainLineIsOther(line: string, name: string)
    requires PlainLine(line) && Foreign(name)
    ensures !HasName(line, name)
  {
    NotNamed(line, name, if ToLower(line[0]) != ToLower(name[0]) then 0 else 6);
  }

  ghost predicate PlainLines(lines: seq<string>) { forall line :: line in lines ==> PlainLine(line) }

  lemma PlainLinesAnswerNothing(lines: seq<string>, name: string)
    requires PlainLines(lines) && Foreign(name)
    ensures HeaderValue(lines, name) == None
  {
    hide PlainLine, HasName, Foreign, HeaderValue;
    forall line | line in lines
      ensures !HasName(line, name)
    {
      PlainLineIsOther(line, name);
    }
    NoneNamed(lines, name);
  }

  lemma MetaLinesArePlain(meta: seq<Metadata>, listable: bool, utf8: bool)
    ensures PlainLines(MetaHeader(meta, listable, utf8))
  {
    hide MetaText;
    var name := MetaHeaderName(listable);
    assert name[0] == 'x' && name[6] == if listable then 'l' else 'm';
  }

  lemma AclLinesArePlain(acl: seq<AclCodec.AclEntry>, kind: AclCodec.PrincipalType)
    ensures PlainLines(AclCodec.AclHeader(acl, kind))
  {
    AclCodec.AclHeaderText(acl, kind);
    var name := AclCodec.HeaderName(kind);
    assert name[0] == 'x' && name[6] == if kind == AclCodec.User then 'u' else 'g';
  }

  lemma FixedLinesArePlain(hasBody: bool, utf8: bool)
    ensures PlainLines(ContentTypeHeader(hasBody)) && PlainLines(ModeHeader(utf8))
  {
    assert HTTP_HEADER_CONTENT_TYPE[0] == 'C' && ATMOS_HEADER_UTF8[0] == 'x' && ATMOS_HEADER_UTF8[6] == 'u';
  }

  /** None of the lines set before the checksum passes for a range, a signature or a checksum. */
  lemma PlainHeadersAnswerNothing(meta: seq<Metadata>, listable: seq<Metadata>, acl: seq<AclCodec.AclEntry>,
      hasBody: bool, utf8: bool, name: string)
    requires Foreign(name)
    ensures HeaderValue(PlainHeaders(meta, listable, acl, hasBody, utf8), name) == None
  {
    FixedLinesArePlain(hasBody, utf8);
    MetaLinesArePlain(meta, false, utf8);
    MetaLinesArePlain(listable, true, utf8);
    AclLinesArePlain(acl, AclCodec.User);
    AclLinesArePlain(acl, AclCodec.Group);
    hide MetaHeader, AclCodec.AclHeader, ContentTypeHeader, ModeHeader, PlainLine;
    PlainLinesAnswerNothing(PlainHeaders(meta, listable, acl, hasBody, utf8), name);
  }

  /** The checksum line is no range and no signature. */
  lemma StampIsOther<C(!new)>(h: Hash<C>, alg: Alg, data: seq<byte>)
    ensures !HasName(StampLine(h, alg, data), HTTP_HEADER_RANGE)
    ensures !HasName(StampLine(h, alg, data), ATMOS_HEADER_SIGNATURE)
  {
    hide StateText;
    var line, name := StampLine(h, alg, data), ATMOS_HEADER_WSCHECKSUM;
    assert name[0] == 'x' && name[6] == 'w' && name <= line;
    NotNamed(line, HTTP_HEADER_RANGE, 0);
    assert ATMOS_HEADER_SIGNATURE[6] == 's';
    NotNamed(line, ATMOS_HEADER_SIGNATURE, 6);
  }

  lemma GenerateLineIsPlain(alg: Alg)
    ensures PlainLine(GenerateLine(alg)) && HasName(GenerateLine(alg), ATMOS_HEADER_GENERATE_CHECKSUM)
  {
    hide AlgName;
    CutLine(ATMOS_HEADER_GENERATE_CHECKSUM, AlgName(alg));
    var line, name := GenerateLine(alg), ATMOS_HEADER_GENERATE_CHECKSUM;
    assert name[0] == 'x' && name[6] == 'g' && name <= line;
  }

  lemma OneLine(line: string, name: string)
    requires !HasName(line, name)
    ensures HeaderValue([line], name) == None
  {
    var lines: seq<string> := [line];
    NoneNamed(lines, name);
  }

  /** What the default filters add besides the content lines is no range. */
  lemma DefaultLinesWithoutRange(env: Env, r: Request)
    ensures HeaderValue([DateLine(env)], HTTP_HEADER_RANGE) == None
    ensures HeaderValue([UidLine(env)], HTTP_HEADER_RANGE) == None
    ensures HeaderValue([SignatureLine(env, r)], HTTP_HEADER_RANGE) == None
  {
    hide StringToSign;
    var date, uid, signature := DateLine(env), UidLine(env), SignatureLine(env, r);
    assert date[0] == 'D' && uid[0] == 'x' && signature[0] == 'x';
    NotNamed(date, HTTP_HEADER_RANGE, 0);
    NotNamed(uid, HTTP_HEADER_RANGE, 0);
    NotNamed(signature, HTTP_HEADER_RANGE, 0);
    OneLine(date, HTTP_HEADER_RANGE);
    OneLine(uid, HTTP_HEADER_RANGE);
    OneLine(signature, HTTP_HEADER_RANGE);
  }
}
