/** What a reader finds in the lines the write filter adds: both metadata lists, both access control
    lists, the mode, the content type and the checksum, each under its own name. */
module WriteLookups {
  import opened CStrings
  import opened Rest
  import opened MetadataCodec
  import opened MetadataRoundTrip
  import AclCodec
  import opened Checksum
  import opened WriteRequest
  import opened Canonical
  import opened FilterChain
  import opened WriteLines

  // ---------------------------------------------------------------- names

  /** The lines of the protocol differ in the two letters behind `x-emc-`. */
  predicate Tagged(line: string, a: char, b: char) {
    |line| > 7 && line[0] == 'x' && line[6] == a && line[7] == b
  }

  lemma OtherTag(line: string, a: char, b: char, name: string, c: char, d: char)
    requires Tagged(line, a, b) && Tagged(name, c, d)
    requires ToLower(a) != ToLower(c) || ToLower(b) != ToLower(d)
    ensures !HasName(line, name)
  {
    NotNamed(line, name, if ToLower(a) != ToLower(c) then 6 else 7);
  }

  lemma NamesAreTagged()
    ensures Tagged("x-emc-meta", 'm', 'e') && Tagged("x-emc-listable-meta", 'l', 'i') && Tagged("x-emc-utf8", 'u', 't')
    ensures Tagged("x-emc-useracl", 'u', 's') && Tagged("x-emc-groupacl", 'g', 'r')
    ensures Tagged("x-emc-wschecksum", 'w', 's') && Tagged("x-emc-generate-checksum", 'g', 'e')
    ensures Tagged("x-emc-uid", 'u', 'i') && Tagged("x-emc-signature", 's', 'i')
  {
  }

  lemma NoneOfTag(lines: seq<string>, a: char, b: char, name: string, c: char, d: char)
    requires (forall line :: line in lines ==> Tagged(line, a, b)) && Tagged(name, c, d)
    requires ToLower(a) != ToLower(c) || ToLower(b) != ToLower(d)
    ensures HeaderValue(lines, name) == None
  {
    hide Tagged, HasName, HeaderValue;
    forall line | line in lines
      ensures !HasName(line, name)
    {
      OtherTag(line, a, b, name, c, d);
    }
    NoneNamed(lines, name);
  }

  lemma MetaTagged(meta: seq<Metadata>, listable: bool, utf8: bool)
    ensures forall line :: line in MetaHeader(meta, listable, utf8) ==>
              if listable then Tagged(line, 'l', 'i') else Tagged(line, 'm', 'e')
  {
    NamesAreTagged();
    hide MetaText;
    var name := MetaHeaderName(listable);
    assert name == if listable then "x-emc-listable-meta" else "x-emc-meta";
  }

  lemma AclTagged(acl: seq<AclCodec.AclEntry>, kind: AclCodec.PrincipalType)
    ensures forall line :: line in AclCodec.AclHeader(acl, kind) ==>
              if kind == AclCodec.User then Tagged(line, 'u', 's') else Tagged(line, 'g', 'r')
  {
    NamesAreTagged();
    AclCodec.AclHeaderText(acl, kind);
    var name := AclCodec.HeaderName(kind);
    assert name == if kind == AclCodec.User then "x-emc-useracl" else "x-emc-groupacl";
  }

  lemma ModeTagged(utf8: bool)
    ensures forall line :: line in ModeHeader(utf8) ==> Tagged(line, 'u', 't')
  {
    NamesAreTagged();
    assert ATMOS_HEADER_UTF8 == "x-emc-utf8";
  }

  lemma ContentTypeIsOther(hasBody: bool, name: string)
    requires name != "" && name[0] == 'x'
    ensures HeaderValue(ContentTypeHeader(hasBody), name) == None
  {
    hide HasName;
    forall line | line in ContentTypeHeader(hasBody)
      ensures !HasName(line, name)
    {
      assert line[0] == HTTP_HEADER_CONTENT_TYPE[0] == 'C';
      NotNamed(line, name, 0);
    }
    NoneNamed(ContentTypeHeader(hasBody), name);
  }

  predicate SmallTag(c: char, d: char) { ToLower(c) == c && ToLower(d) == d }

  // ---------------------------------------------------------------- the lines before the checksum

  /** Of the plain lines only those of its own kind answer a name. */
  lemma PlainValue(meta: seq<Metadata>, listable: seq<Metadata>, acl: seq<AclCodec.AclEntry>, hasBody: bool, utf8: bool,
                   name: string, c: char, d: char)
    requires Tagged(name, c, d) && SmallTag(c, d)
    ensures HeaderValue(PlainHeaders(meta, listable, acl, hasBody, utf8), name) ==
            if c == 'm' && d == 'e' then HeaderValue(MetaHeader(meta, false, utf8), name)
            else if c == 'l' && d == 'i' then HeaderValue(MetaHeader(listable, true, utf8), name)
            else if c == 'u' && d == 't' then HeaderValue(ModeHeader(utf8), name)
            else if c == 'u' && d == 's' then HeaderValue(AclCodec.AclHeader(acl, AclCodec.User), name)
            else if c == 'g' && d == 'r' then HeaderValue(AclCodec.AclHeader(acl, AclCodec.Group), name)
            else None
  {
    MetaTagged(meta, false, utf8);
    MetaTagged(listable, true, utf8);
    ModeTagged(utf8);
    AclTagged(acl, AclCodec.User);
    AclTagged(acl, AclCodec.Group);
    ContentTypeIsOther(hasBody, name);
    hide MetaHeader, ModeHeader, AclCodec.AclHeader, ContentTypeHeader, HeaderValue;
    var a1, a2, a3 := ContentTypeHeader(hasBody), MetaHeader(meta, false, utf8), MetaHeader(listable, true, utf8);
    var a4, a5, a6 := ModeHeader(utf8), AclCodec.AclHeader(acl, AclCodec.User), AclCodec.AclHeader(acl, AclCodec.Group);
    if c != 'm' || d != 'e' { NoneOfTag(a2, 'm', 'e', name, c, d); }
    if c != 'l' || d != 'i' { NoneOfTag(a3, 'l', 'i', name, c, d); }
    if c != 'u' || d != 't' { NoneOfTag(a4, 'u', 't', name, c, d); }
    if c != 'u' || d != 's' { NoneOfTag(a5, 'u', 's', name, c, d); }
    if c != 'g' || d != 'r' { NoneOfTag(a6, 'g', 'r', name, c, d); }
    HeaderValueAppend(a1, a2, name);
    HeaderValueAppend(a1 + a2, a3, name);
    HeaderValueAppend(a1 + a2 + a3, a4, name);
    HeaderValueAppend(a1 + a2 + a3 + a4, a5 + a6, name);
    HeaderValueAppend(a5, a6, name);
  }

  // ---------------------------------------------------------------- what a request carries

  /** No line with a name the write filter uses. */
  predicate Blank(headers: seq<string>) {
    && HeaderValue(headers, "x-emc-meta") == None && HeaderValue(headers, "x-emc-listable-meta") == None
    && HeaderValue(headers, "x-emc-utf8") == None
    && HeaderValue(headers, "x-emc-useracl") == None && HeaderValue(headers, "x-emc-groupacl") == None
  }

  /** Lines a write filter's values are not looked up in. */
  ghost predicate Neutral(lines: seq<string>) {
    forall line :: line in lines ==>
      line != "" && (ToLower(line[0]) != 'x' || Tagged(line, 'w', 's') || Tagged(line, 'g', 'e')
          || Tagged(line, 'u', 'i') || Tagged(line, 's', 'i'))
  }

  lemma NeutralIsOther(lines: seq<string>, name: string, c: char, d: char)
    requires Neutral(lines) && Tagged(name, c, d) && SmallTag(c, d)
    requires !(c == 'w' && d == 's') && !(c == 'g' && d == 'e') && !(c == 'u' && d == 'i') && !(c == 's' && d == 'i')
    ensures HeaderValue(lines, name) == None
  {
    hide HasName, HeaderValue;
    forall line | line in lines
      ensures !HasName(line, name)
    {
      if ToLower(line[0]) != 'x' {
        NotNamed(line, name, 0);
      } else {
        OtherTag(line, line[6], line[7], name, c, d);
      }
    }
    NoneNamed(lines, name);
  }

  /** Reading the lines gives back the metadata lists, as their texts do, the mode, and for clean user
      principals the entries of the access control list the headers can carry. */
  ghost predicate Carries(headers: seq<string>, meta: seq<Metadata>, listable: seq<Metadata>,
      acl: seq<AclCodec.AclEntry>,
                          utf8: bool)
  {
    && ParsedHeader(headers, "x-emc-meta") == Back(meta, utf8)
    && ParsedHeader(headers, "x-emc-listable-meta") == Back(listable, utf8)
    && HeaderValue(headers, "x-emc-utf8") == (if utf8 then Some("true") else None)
    && ((forall e :: e in acl && e.kind == AclCodec.User ==> AclCodec.Clean(e)) ==>
          && HeaderValue(headers, "x-emc-useracl") == AclCodec.Printed(AclCodec.Selected(acl, AclCodec.User))
          && HeaderValue(headers, "x-emc-groupacl") == AclCodec.Printed(AclCodec.Selected(acl, AclCodec.Group)))
  }

  /** One name, through everything before, between and behind the plain lines. */
  lemma Surrounded(before: seq<string>, plain: seq<string>, after: seq<string>, name: string)
    requires HeaderValue(before, name) == None && HeaderValue(after, name) == None
    ensures HeaderValue(before + plain + after, name) == HeaderValue(plain, name)
  {
    HeaderValueAppend(before, plain, name);
    HeaderValueAppend(before + plain, after, name);
  }

  lemma OwnMetaValue(meta: seq<Metadata>, listable: bool, utf8: bool)
    ensures HeaderValue(MetaHeader(meta, listable, utf8), if listable then "x-emc-listable-meta" else "x-emc-meta") ==
            if meta == [] then None else Some(SkipSpaces(MetaText(meta, utf8, 0)))
  {
    MetaNames();
    assert MetaHeaderName(listable) == if listable then "x-emc-listable-meta" else "x-emc-meta";
    hide HeaderValue, MetaHeader, MetaText, SkipSpaces;
    MetaHeaderValue(meta, listable, utf8, MetaHeaderName(listable));
  }

  lemma OwnModeValue(utf8: bool)
    ensures HeaderValue(ModeHeader(utf8), "x-emc-utf8") == if utf8 then Some("true") else None
  {
    MetaNames();
    assert ATMOS_HEADER_UTF8 == "x-emc-utf8";
    hide HeaderValue;
    if utf8 { ModeValue("x-emc-utf8"); } else { NoneNamed([], "x-emc-utf8"); }
  }

  /** The write filter's lines on a request that had none of them, and whatever the rest of the chain
      adds behind them. */
  lemma WrittenCarries(before: seq<string>, meta: seq<Metadata>, listable: seq<Metadata>, acl: seq<AclCodec.AclEntry>,
                       hasBody: bool, utf8: bool, after: seq<string>)
    requires Blank(before) && Neutral(after)
    ensures Carries(before + PlainHeaders(meta, listable, acl, hasBody, utf8) + after, meta, listable, acl, utf8)
  {
    hide HeaderValue, PlainHeaders, MetaHeader, MetaText, ModeHeader, AclCodec.AclHeader, Neutral, SkipSpaces,
        ParseUserMeta, Tagged,
        AclCodec.Printed, AclCodec.Selected, AclCodec.Clean;
    NamesAreTagged();
    var plain := PlainHeaders(meta, listable, acl, hasBody, utf8);
    NeutralIsOther(after, "x-emc-meta", 'm', 'e');
    NeutralIsOther(after, "x-emc-listable-meta", 'l', 'i');
    NeutralIsOther(after, "x-emc-utf8", 'u', 't');
    NeutralIsOther(after, "x-emc-useracl", 'u', 's');
    NeutralIsOther(after, "x-emc-groupacl", 'g', 'r');
    Surrounded(before, plain, after, "x-emc-meta");
    Surrounded(before, plain, after, "x-emc-listable-meta");
    Surrounded(before, plain, after, "x-emc-utf8");
    Surrounded(before, plain, after, "x-emc-useracl");
    Surrounded(before, plain, after, "x-emc-groupacl");
    PlainValue(meta, listable, acl, hasBody, utf8, "x-emc-meta", 'm', 'e');
    PlainValue(meta, listable, acl, hasBody, utf8, "x-emc-listable-meta", 'l', 'i');
    PlainValue(meta, listable, acl, hasBody, utf8, "x-emc-utf8", 'u', 't');
    PlainValue(meta, listable, acl, hasBody, utf8, "x-emc-useracl", 'u', 's');
    PlainValue(meta, listable, acl, hasBody, utf8, "x-emc-groupacl", 'g', 'r');
    OwnMetaValue(meta, false, utf8);
    OwnMetaValue(listable, true, utf8);
    OwnModeValue(utf8);
    LeadingSpacesDoNotCount(MetaText(meta, utf8, 0), utf8);
    LeadingSpacesDoNotCount(MetaText(listable, utf8, 0), utf8);
    if forall e :: e in acl && e.kind == AclCodec.User ==> AclCodec.Clean(e) {
      OwnAclValues(acl);
    }
  }

  lemma OwnAclValues(acl: seq<AclCodec.AclEntry>)
    requires forall e :: e in acl && e.kind == AclCodec.User ==> AclCodec.Clean(e)
    ensures HeaderValue(AclCodec.AclHeader(acl, AclCodec.User), "x-emc-useracl")
        == AclCodec.Printed(AclCodec.Selected(acl, AclCodec.User))
    ensures HeaderValue(AclCodec.AclHeader(acl, AclCodec.Group), "x-emc-groupacl")
        == AclCodec.Printed(AclCodec.Selected(acl, AclCodec.Group))
  {
    assert AclCodec.HeaderName(AclCodec.User) == "x-emc-useracl"
        && AclCodec.HeaderName(AclCodec.Group) == "x-emc-groupacl";
    hide HeaderValue, AclCodec.AclHeader, AclCodec.Printed, AclCodec.Selected, AclCodec.Clean;
    AclCodec.AclHeaderValue(acl, AclCodec.User, AclCodec.User);
    AclCodec.AclHeaderValue(acl, AclCodec.Group, AclCodec.Group);
  }

  /** A parser of access control headers gets the users and then the group `other`, in their order. */
  lemma CarriedAcl(headers: seq<string>, meta: seq<Metadata>, listable: seq<Metadata>, acl: seq<AclCodec.AclEntry>,
      utf8: bool,
                   slots: seq<AclCodec.AclEntry>, at: nat)
    requires Carries(headers, meta, listable, acl, utf8)
    requires forall e :: e in acl && e.kind == AclCodec.User ==> AclCodec.Clean(e)
    requires at + |AclCodec.Selected(acl, AclCodec.User)| + |AclCodec.Selected(acl, AclCodec.Group)| <= |slots|
    ensures |AclCodec.ValueParts(AclCodec.UserAcl(headers))| == |AclCodec.Selected(acl, AclCodec.User)|
    ensures |AclCodec.ValueParts(AclCodec.GroupAcl(headers))| == |AclCodec.Selected(acl, AclCodec.Group)|
    ensures AclCodec.AclOfBoth(AclCodec.UserAcl(headers), AclCodec.GroupAcl(headers), slots, at)
            == AclCodec.Selected(acl, AclCodec.User) + AclCodec.Selected(acl, AclCodec.Group)
  {
    assert AclCodec.UserAcl(headers) == HeaderValue(headers, "x-emc-useracl");
    assert AclCodec.GroupAcl(headers) == HeaderValue(headers, "x-emc-groupacl");
    hide HeaderValue, AclCodec.UserAcl, AclCodec.GroupAcl, AclCodec.Printed, AclCodec.Selected, AclCodec.ValueParts,
        AclCodec.AclOf, AclCodec.AclOfBoth, ParsedHeader, AclCodec.Clean;
    AclCodec.SelectedParse(acl, slots, at);
  }

  /** The content type is named when there is no body. */
  lemma ContentTypeNamed(before: seq<string>, meta: seq<Metadata>, listable: seq<Metadata>, acl: seq<AclCodec.AclEntry>,
                         utf8: bool, after: seq<string>)
    requires HeaderValue(before, "Content-Type") == None
    ensures HeaderValue(before + PlainHeaders(meta, listable, acl, false, utf8) + after, "Content-Type")
            == Some("application/octet-stream")
  {
    hide HeaderValue, MetaHeader, ModeHeader, AclCodec.AclHeaders;
    var plain := PlainHeaders(meta, listable, acl, false, utf8);
    var rest := MetaHeader(meta, false, utf8) + MetaHeader(listable, true, utf8) + ModeHeader(utf8)
        + AclCodec.AclHeaders(acl);
    Regroup4(ContentTypeHeader(false), MetaHeader(meta, false, utf8), MetaHeader(listable, true, utf8),
        ModeHeader(utf8),
             AclCodec.AclHeaders(acl));
    assert plain == ContentTypeHeader(false) + rest;
    ContentTypeValue();
    hide PlainHeaders, ContentTypeHeader;
    HeaderValueAppend(ContentTypeHeader(false), rest, "Content-Type");
    HeaderValueAppend(before, plain, "Content-Type");
    HeaderValueAppend(before + plain, after, "Content-Type");
  }

  /** A body comes with a content type of its own, and the write filter names none. */
  lemma ContentTypeKept(before: seq<string>, meta: seq<Metadata>, listable: seq<Metadata>, acl: seq<AclCodec.AclEntry>,
                        utf8: bool)
    ensures HeaderValue(before + PlainHeaders(meta, listable, acl, true, utf8), "Content-Type")
            == HeaderValue(before, "Content-Type")
  {
    MetaTagged(meta, false, utf8);
    MetaTagged(listable, true, utf8);
    ModeTagged(utf8);
    AclTagged(acl, AclCodec.User);
    AclTagged(acl, AclCodec.Group);
    hide MetaHeader, ModeHeader, AclCodec.AclHeader, HeaderValue, HasName;
    var plain := PlainHeaders(meta, listable, acl, true, utf8);
    forall line | line in plain
      ensures !HasName(line, "Content-Type")
    {
      assert line[0] == 'x';
      NotNamed(line, "Content-Type", 0);
    }
    NoneNamed(plain, "Content-Type");
    HeaderValueAppend(before, plain, "Content-Type");
  }

  lemma Regroup4(a: seq<string>, b: seq<string>, c: seq<string>, d: seq<string>, e: seq<string>)
    ensures a + b + c + d + e == a + (b + c + d + e)
  {
  }

  lemma ContentTypeValue()
    ensures HeaderValue(ContentTypeHeader(false), "Content-Type") == Some("application/octet-stream")
  {
    hide HeaderValue;
    LineValue("Content-Type", "application/octet-stream");
    assert "application/octet-stream"[0] == 'a';
    assert "Content-Type" + ": application/octet-stream" == "Content-Type" + ": " + "application/octet-stream";
  }

  // ---------------------------------------------------------------- what comes behind

  lemma ChecksumLinesAreNeutral<C(!new)>(h: Hash<C>, alg: Alg, data: seq<byte>)
    ensures Neutral([StampLine(h, alg, data)]) && Neutral([GenerateLine(alg)])
  {
    hide StateText, AlgName;
    NamesAreTagged();
    assert ATMOS_HEADER_WSCHECKSUM == "x-emc-wschecksum" && ATMOS_HEADER_GENERATE_CHECKSUM == "x-emc-generate-checksum";
    assert ATMOS_HEADER_WSCHECKSUM <= StampLine(h, alg, data) && ATMOS_HEADER_GENERATE_CHECKSUM <= GenerateLine(alg);
  }

  /** The line that asks for a checksum names the algorithm. */
  lemma GenerateFound(reached: seq<string>, alg: Alg, after: seq<string>)
    requires HeaderValue(reached, "x-emc-generate-checksum") == None
    ensures HeaderValue(reached + [GenerateLine(alg)] + after, "x-emc-generate-checksum") == Some(AlgName(alg))
  {
    assert ATMOS_HEADER_GENERATE_CHECKSUM == "x-emc-generate-checksum" && AlgName(alg)[0] != ' ';
    hide HeaderValue, AlgName;
    LineValue("x-emc-generate-checksum", AlgName(alg));
    HeaderValueAppend(reached, [GenerateLine(alg)], "x-emc-generate-checksum");
    HeaderValueAppend(reached + [GenerateLine(alg)], after, "x-emc-generate-checksum");
  }

  /** The content lines are none of the protocol's own. */
  ghost predicate ContentOnly(env: Env) {
    forall r, line :: line in env.contentHeaders(r) ==> line != "" && ToLower(line[0]) != 'x'
  }

  lemma NeutralAppend(a: seq<string>, b: seq<string>)
    requires Neutral(a) && Neutral(b)
    ensures Neutral(a + b)
  {
  }

  lemma OtherLineIsNeutral(line: string, name: string, a: char, b: char)
    requires name <= line && Tagged(name, a, b) && ((a == 'u' && b == 'i') || (a == 's' && b == 'i'))
    ensures Neutral([line])
  {
    assert Tagged(line, a, b);
  }

  lemma DateIsNeutral(env: Env)
    ensures Neutral([DateLine(env)])
  {
    assert HTTP_HEADER_DATE == "Date" && DateLine(env)[0] == 'D';
    hide DateLine;
  }

  lemma UidIsNeutral(env: Env)
    ensures Neutral([UidLine(env)])
  {
    NamesAreTagged();
    assert ATMOS_HEADER_UID == "x-emc-uid" && ATMOS_HEADER_UID <= UidLine(env);
    hide UidLine, Tagged, Neutral;
    OtherLineIsNeutral(UidLine(env), "x-emc-uid", 'u', 'i');
  }

  lemma SignatureIsNeutral(env: Env, d: Request)
    ensures Neutral([SignatureLine(env, d)])
  {
    hide StringToSign;
    NamesAreTagged();
    assert ATMOS_HEADER_SIGNATURE == "x-emc-signature" && ATMOS_HEADER_SIGNATURE <= SignatureLine(env, d);
    hide SignatureLine, Tagged, Neutral;
    OtherLineIsNeutral(SignatureLine(env, d), "x-emc-signature", 's', 'i');
  }

  lemma ContentIsNeutral(env: Env, r: Request)
    requires ContentOnly(env)
    ensures Neutral(env.contentHeaders(r))
  {
    hide Tagged;
    forall line | line in env.contentHeaders(r)
      ensures line != "" && ToLower(line[0]) != 'x'
    {
    }
  }

  lemma DefaultLinesAreNeutral(q: Request, env: Env) returns (more: seq<string>)
    requires ContentOnly(env)
    ensures ToBeSigned(q, env).headers == q.headers + more && Neutral(more)
    ensures Neutral(more + [SignatureLine(env, ToBeSigned(q, env))])
  {
    hide DateLine, UidLine, SignatureLine, Tagged;
    var d := ToBeSigned(q, env);
    var dated := WithLines(WithLines(q, [DateLine(env)]), [UidLine(env)]);
    DateIsNeutral(env);
    UidIsNeutral(env);
    SignatureIsNeutral(env, d);
    ContentIsNeutral(env, dated);
    hide Neutral;
    more := [DateLine(env)] + [UidLine(env)] + env.contentHeaders(dated);
    NeutralAppend([DateLine(env)], [UidLine(env)]);
    NeutralAppend([DateLine(env)] + [UidLine(env)], env.contentHeaders(dated));
    NeutralAppend(more, [SignatureLine(env, d)]);
    Regroup3(q.headers, [DateLine(env)], [UidLine(env)], env.contentHeaders(dated));
  }

  lemma Regroup3(h: seq<string>, a: seq<string>, b: seq<string>, c: seq<string>)
    ensures h + a + b + c == h + (a + b + c)
  {
  }

}
