/** Access control lists as header text: `AtmosUtil_set_acl_header` writes one header for users and
    one for the group `other`; `AtmosUtil_parse_acl_headers` reads them back, users first. */
module AclCodec {
  import opened CStrings
  import opened StringBuffer
  import opened Rest
  import opened MetadataCodec

  datatype PrincipalType = User | Group
  datatype Permission = NoAccess | Read | ReadWrite | Full | ReadAcl | WriteAcl | Execute
  datatype AclEntry = AclEntry(principal: string, kind: PrincipalType, permission: Permission)

  const ATMOS_ACL_GROUP_OTHER := "other"

  function HeaderName(kind: PrincipalType): string {
    if kind == User then "x-emc-useracl" else "x-emc-groupacl"
  }

  function PermissionString(p: Permission): (s: string)
    ensures s != "" && ',' !in s && ' ' !in s && NulFree(s)
  {
    match p
    case Execute => "EXECUTE"
    case WriteAcl => "WRITE_ACL"
    case ReadAcl => "READ_ACL"
    case Full => "FULL_CONTROL"
    case Read => "READ"
    case ReadWrite => "WRITE"
    case NoAccess => "NONE"
  }

  /** The parser's comparisons; an unknown word leaves the field as it was. */
  function PermissionOf(s: string): Option<Permission> {
    if s == "FULL_CONTROL" then Some(Full)
    else if s == "NONE" then Some(NoAccess)
    else if s == "READ" then Some(Read)
    else if s == "WRITE" then Some(ReadWrite)
    else if s == "READ_ACL" then Some(ReadAcl)
    else if s == "WRITE_ACL" then Some(WriteAcl)
    else if s == "EXECUTE" then Some(Execute)
    else None
  }

  /** Each permission has its own word, and a word is accepted only if it is one of these. */
  lemma PermissionInversion(s: string, p: Permission)
    ensures PermissionOf(s) == Some(p) <==> s == PermissionString(p)
  {
    assert "NONE"[0] == 'N' && "READ"[0] == 'R';
    assert |"READ"| == 4 && |"WRITE"| == 5 && |"READ_ACL"| == 8 && |"WRITE_ACL"| == 9;
  }

  // ---------------------------------------------------------------- printing

  /** Entries the printer accepts for one of the two headers. */
  predicate Accepted(e: AclEntry, kind: PrincipalType) {
    e.kind == kind && (kind == Group ==> e.principal == ATMOS_ACL_GROUP_OTHER)
  }

  function Selected(acl: seq<AclEntry>, kind: PrincipalType): (r: seq<AclEntry>)
    ensures forall e :: e in r ==> e in acl && Accepted(e, kind)
  {
    if acl == [] then []
    else if Accepted(acl[0], kind) then [acl[0]] + Selected(acl[1..], kind)
    else Selected(acl[1..], kind)
  }

  /** Users go into one header, the group `other` into the other one, in their order. */
  lemma {:induction false} SelectedFilters(a: seq<AclEntry>, e: AclEntry, kind: PrincipalType)
    ensures Selected([], kind) == []
    ensures Selected(a + [e], kind) ==
              Selected(a, kind) + (if e.kind == kind && (e.kind == User || e.principal == "other") then [e] else [])
  {
    if a == [] {
      var one := [e];
      assert a + one == one && one[1..] == [];
    } else {
      assert (a + [e])[1..] == a[1..] + [e];
      SelectedFilters(a[1..], e, kind);
    }
  }

  /** The words of the protocol. */
  lemma PermissionWords()
    ensures PermissionString(NoAccess) == "NONE" && PermissionString(Full) == "FULL_CONTROL"
    ensures PermissionString(Read) == "READ" && PermissionString(ReadWrite) == "WRITE"
        && PermissionString(Execute) == "EXECUTE"
    ensures PermissionString(ReadAcl) == "READ_ACL" && PermissionString(WriteAcl) == "WRITE_ACL"
  {
  }

  function EntryText(e: AclEntry): string { e.principal + "=" + PermissionString(e.permission) }

  function Separator(kind: PrincipalType, first: bool): string {
    if first then HeaderName(kind) + ": " else ", "
  }

  /** What entry `i` and the later ones append to the buffer of `kind`. */
  function AclText(acl: seq<AclEntry>, i: nat, kind: PrincipalType, first: bool): string
    requires i <= |acl|
    decreases |acl| - i
  {
    if i == |acl| then ""
    else if Accepted(acl[i], kind) then
      Separator(kind, first) + EntryText(acl[i]) + AclText(acl, i + 1, kind, false)
    else AclText(acl, i + 1, kind, first)
  }

  function AclHeader(acl: seq<AclEntry>, kind: PrincipalType): seq<string> {
    var text := AclText(acl, 0, kind, true);
    if text == "" then [] else [text]
  }

  function AclHeaders(acl: seq<AclEntry>): seq<string> { AclHeader(acl, User) + AclHeader(acl, Group) }

  method AppendSeparator(b: CBuffer, kind: PrincipalType, first: bool)
    requires b.Valid()
    modifies b.Repr
    ensures b.Valid() && fresh(b.Repr - old(b.Repr))
    ensures b.text == old(b.text) + Separator(kind, first)
  {
    if !first {
      b.Append(", ");
    } else {
      b.Append(HeaderName(kind));
      b.Append(": ");
    }
  }

  method AppendAclEntry(b: CBuffer, e: AclEntry, kind: PrincipalType, first: bool)
    requires b.Valid() && NulFree(e.principal)
    modifies b.Repr
    ensures b.Valid() && fresh(b.Repr - old(b.Repr)) && b.buf != null
    ensures b.text == old(b.text) + (Separator(kind, first) + EntryText(e)) && b.text != ""
  {
    AppendSeparator(b, kind, first);
    AppendPair(b, e.principal, PermissionString(e.permission));
    Assoc(old(b.text), Separator(kind, first), EntryText(e));
  }

  /** One buffer of the loop: not yet begun, or begun and not empty. */
  ghost predicate Writing(b: CBuffer, acl: seq<AclEntry>, i: nat, kind: PrincipalType, first: bool)
    requires i <= |acl|
    reads b, b.Repr
  {
    && b.Valid()
    && (first ==> b.buf == null && b.text == "")
    && (!first ==> b.buf != null && b.text != "")
    && b.text + AclText(acl, i, kind, first) == AclText(acl, 0, kind, true)
  }

  method WriteAclEntry(b: CBuffer, acl: seq<AclEntry>, i: nat, kind: PrincipalType, first: bool) returns (first': bool)
    requires i < |acl| && NulFree(acl[i].principal) && Writing(b, acl, i, kind, first)
    modifies b.Repr
    ensures fresh(b.Repr - old(b.Repr)) && Writing(b, acl, i + 1, kind, first')
  {
    first' := first;
    if acl[i].kind == kind {
      if kind == Group && acl[i].principal != ATMOS_ACL_GROUP_OTHER { return; }
      Assoc(b.text, Separator(kind, first) + EntryText(acl[i]), AclText(acl, i + 1, kind, false));
      AppendAclEntry(b, acl[i], kind, first);
      first' := false;
    }
  }

  method AddIfWritten(b: CBuffer, acl: seq<AclEntry>, kind: PrincipalType, ghost first: bool, request: RestRequest)
    requires Writing(b, acl, |acl|, kind, first) && request !in b.Repr
    modifies request`headers
    ensures request.headers == old(request.headers) + AclHeader(acl, kind)
  {
    assert b.text + "" == b.text;
    if b.bufsz > 0 {
      var header := b.Text();
      request.AddHeader(header);
    } else {
      assert request.headers + [] == request.headers;
    }
  }

  method SetAclHeader(acl: seq<AclEntry>, request: RestRequest)
    requires forall i :: 0 <= i < |acl| ==> NulFree(acl[i].principal)
    modifies request`headers
    ensures request.headers == old(request.headers) + AclHeaders(acl)
  {
    if |acl| < 1 {
      assert request.headers == request.headers + [];
      return;
    }
    WriteAclHeaders(acl, request);
  }

  method WriteAclHeaders(acl: seq<AclEntry>, request: RestRequest)
    requires forall i :: 0 <= i < |acl| ==> NulFree(acl[i].principal)
    modifies request`headers
    ensures request.headers == old(request.headers) + AclHeaders(acl)
  {
    hide AclHeader, AclText;
    var user := new CBuffer();
    var group := new CBuffer();
    var first_user, first_group := true, true;
    var i := 0;
    while i < |acl|
      invariant 0 <= i <= |acl|
      invariant request.headers == old(request.headers)
      invariant fresh(user.Repr) && fresh(group.Repr) && user.Repr !! group.Repr
      invariant Writing(user, acl, i, User, first_user) && Writing(group, acl, i, Group, first_group)
    {
      first_user := WriteAclEntry(user, acl, i, User, first_user);
      first_group := WriteAclEntry(group, acl, i, Group, first_group);
      i := i + 1;
    }
    AddIfWritten(user, acl, User, first_user, request);
    AddIfWritten(group, acl, Group, first_group, request);
    assert request.headers == old(request.headers) + AclHeaders(acl);
  }

  // ---------------------------------------------------------------- parsing

  /** What one part makes of the slot it is stored in. */
  function AclFromPart(part: string, kind: PrincipalType, slot: AclEntry): AclEntry {
    var e := ParseEntry(part);
    var p := PermissionOf(e.value);
    AclEntry(Truncate(e.name, ATMOS_UID_MAX), kind, if p.Some? then p.value else slot.permission)
  }

  /** The entries of the parts, stored in the slots from `at` on. */
  function ParsedAcl(parts: seq<string>, kind: PrincipalType, slots: seq<AclEntry>, at: nat): (r: seq<AclEntry>)
    requires at + |parts| <= |slots|
    ensures |r| == |parts|
  {
    if parts == [] then []
    else
      var last := |parts| - 1;
      ParsedAcl(parts[..last], kind, slots, at) + [AclFromPart(parts[last], kind, slots[at + last])]
  }

  lemma {:induction false} ParsedAclAt(parts: seq<string>, kind: PrincipalType, slots: seq<AclEntry>, at: nat, i: nat)
    requires at + |parts| <= |slots| && i < |parts|
    ensures ParsedAcl(parts, kind, slots, at)[i] == AclFromPart(parts[i], kind, slots[at + i])
  {
    var last := |parts| - 1;
    if i < last { ParsedAclAt(parts[..last], kind, slots, at, i); }
  }

  /** Only the slots from `at` on are looked at. */
  lemma {:induction false} ParsedAclSame(parts: seq<string>, kind: PrincipalType, slots: seq<AclEntry>,
      other: seq<AclEntry>, at: nat)
    requires at + |parts| <= |slots| == |other| && forall k :: at <= k < |slots| ==> slots[k] == other[k]
    ensures ParsedAcl(parts, kind, slots, at) == ParsedAcl(parts, kind, other, at)
  {
    if parts != [] {
      var last := |parts| - 1;
      ParsedAclSame(parts[..last], kind, slots, other, at);
    }
  }

  /** Names and words fit the parser's buffers of 255 bytes. */
  predicate PartFits(part: string) {
    var e := ParseEntry(part);
    |part| <= 2 * ATMOS_UID_MAX && |e.name| < ATMOS_UID_MAX && |e.value| < ATMOS_UID_MAX
  }

  predicate AclFits(value: string) {
    forall part :: part in Split(value, ',') ==> PartFits(part)
  }

  /** The array after the first `|done|` parts were stored from index `count` on. */
  ghost predicate AclProgress(now: seq<AclEntry>, was: seq<AclEntry>, parts: seq<string>, kind: PrincipalType,
                              count: nat, done: seq<AclEntry>)
  {
    && |done| <= |parts| && count + |parts| <= |was|
    && Filled(now, was, count, done)
    && done == ParsedAcl(parts[..|done|], kind, was, count)
  }

  lemma ParsedAclSnoc(parts: seq<string>, k: nat, kind: PrincipalType, slots: seq<AclEntry>, at: nat)
    requires k < |parts| && at + |parts| <= |slots|
    ensures ParsedAcl(parts[..k + 1], kind, slots, at) ==
            ParsedAcl(parts[..k], kind, slots, at) + [AclFromPart(parts[k], kind, slots[at + k])]
  {
    assert parts[..k + 1][..k] == parts[..k];
  }

  method StoreAcl(acl: array<AclEntry>, at: nat, name: string, text: string, kind: PrincipalType,
                  ghost was: seq<AclEntry>, ghost parts: seq<string>, ghost count: nat, ghost done: seq<AclEntry>)
    returns (ghost more: seq<AclEntry>)
    requires AclProgress(acl[..], was, parts, kind, count, done) && at == count + |done| && |done| < |parts|
    requires Metadata(name, text) == ParseEntry(parts[|done|])
    modifies acl
    ensures |more| == |done| + 1 && AclProgress(acl[..], was, parts, kind, count, more)
  {
    assert acl[at] == was[at] by {
      assert acl[..][at..][0] == was[at..][0];
    }
    var p := PermissionOf(text);
    var e := AclEntry(Truncate(name, ATMOS_UID_MAX), kind, if p.Some? then p.value else acl[at].permission);
    StoreEntry(acl, at, e, was, count, done);
    ParsedAclSnoc(parts, |done|, kind, was, count);
    more := done + [e];
  }

  method ParseAcl(value: string, acl: array<AclEntry>, count: nat, kind: PrincipalType) returns (acl_count: nat)
    requires AclFits(value) && count + |Split(value, ',')| <= acl.Length
    modifies acl
    ensures acl_count == count + |Split(value, ',')|
    ensures Filled(acl[..], old(acl[..]), count, ParsedAcl(Split(value, ','), kind, old(acl[..]), count))
  {
    ghost var was, done: seq<AclEntry> := acl[..], [];
    ghost var parts := Split(value, ',');
    var cursor := Some(0);
    acl_count := count;
    assert value[0..] == value && parts[0..] == parts && parts[..0] == [];
    while cursor.Some?
      invariant cursor.Some? ==> cursor.value <= |value|
      invariant AclProgress(acl[..], was, parts, kind, count, done)
      invariant PartsFrom(value, cursor) == parts[|done|..]
      invariant acl_count == count + |done|
      decreases if cursor.Some? then |value| + 1 - cursor.value else 0
    {
      var name, text, next, part := NextEntry(value, cursor.value);
      NextPart(parts, |done|, part, PartsFrom(value, next));
      cursor := next;
      done := StoreAcl(acl, acl_count, name, text, kind, was, parts, count, done);
      acl_count := acl_count + 1;
    }
    assert parts[..|done|] == parts;
  }

  lemma NextPart(parts: seq<string>, k: nat, part: string, rest: seq<string>)
    requires k <= |parts| && parts[k..] == [part] + rest
    ensures k < |parts| && parts[k] == part && parts[k + 1..] == rest
  {
    assert parts[k..][0] == part && parts[k..][1..] == rest;
  }

  // ---------------------------------------------------------------- the round trip

  function Texts(es: seq<AclEntry>): (r: seq<string>)
    ensures |r| == |es| && forall i :: 0 <= i < |es| ==> r[i] == EntryText(es[i])
  {
    seq(|es|, i requires 0 <= i < |es| => EntryText(es[i]))
  }

  lemma {:induction false} AclTextTail(acl: seq<AclEntry>, i: nat, kind: PrincipalType)
    requires i <= |acl|
    ensures AclText(acl, i, kind, false) == Prefixed(", ", Texts(Selected(acl[i..], kind)))
    ensures AclText(acl, i, kind, true) ==
            if Selected(acl[i..], kind) == [] then ""
            else HeaderName(kind) + ": " + Join(", ", Texts(Selected(acl[i..], kind)))
    decreases |acl| - i
  {
    if i < |acl| {
      AclTextTail(acl, i + 1, kind);
      assert acl[i..][1..] == acl[i + 1..];
      if Accepted(acl[i], kind) {
        var rest := Selected(acl[i + 1..], kind);
        assert Texts([acl[i]] + rest) == [EntryText(acl[i])] + Texts(rest);
        PrefixedCons(", ", EntryText(acl[i]), Texts(rest));
        assert ([EntryText(acl[i])] + Texts(rest))[1..] == Texts(rest);
        Assoc(HeaderName(kind) + ": ", EntryText(acl[i]), Prefixed(", ", Texts(rest)));
      }
    }
  }

  /** Principals the header can carry. */
  predicate Clean(e: AclEntry) {
    && ',' !in e.principal && '=' !in e.principal
    && SkipSpaces(e.principal) == e.principal
    && |e.principal| < ATMOS_UID_MAX
  }

  lemma ParseAclPart(e: AclEntry, kind: PrincipalType, slot: AclEntry)
    requires Clean(e) && e.kind == kind
    ensures AclFromPart(EntryText(e), kind, slot) == e
    ensures AclFromPart(" " + EntryText(e), kind, slot) == e
  {
    var w := PermissionString(e.permission);
    PermissionInversion(w, e.permission);
    assert SkipSpaces(w) == w by { assert w[0] in w; }
    ParsePair(e.principal, w);
  }

  lemma PrefixWithout(s: string, p: string, c: char)
    requires p <= s && c !in s
    ensures c !in p
  {
  }

  lemma ParsedNameIsClean(part: string)
    requires ',' !in part
    ensures var name := Truncate(ParseEntry(part).name, ATMOS_UID_MAX);
            ',' !in name && '=' !in name && SkipSpaces(name) == name && |name| < ATMOS_UID_MAX
  {
    var e := SkipSpaces(part);
    SkippedSpaces(part);
    var whole := e[..IndexOf(e, '=')];
    assert ParseEntry(part).name == whole;
    var name := Truncate(whole, ATMOS_UID_MAX);
    assert name <= e && ',' !in e && '=' !in whole;
    PrefixWithout(e, name, ',');
    PrefixWithout(whole, name, '=');
    assert name != [] ==> name[0] == e[0];
  }

  lemma TextsWithoutComma(es: seq<AclEntry>)
    requires forall e :: e in es ==> Clean(e)
    ensures AllWithout(',', Texts(es))
  {
    forall i | 0 <= i < |es|
      ensures ',' !in Texts(es)[i]
    {
      assert Clean(es[i]);
    }
  }

  lemma CleanParts(es: seq<AclEntry>) returns (parts: seq<string>)
    requires es != [] && forall e :: e in es ==> Clean(e)
    ensures |parts| == |es| && Split(Join(", ", Texts(es)), ',') == parts
    ensures forall i :: 0 <= i < |es| ==> parts[i] == EntryText(es[i]) || parts[i] == " " + EntryText(es[i])
  {
    TextsWithoutComma(es);
    SplitSpacedJoin(Texts(es));
    parts := [EntryText(es[0])] + Spaced(Texts(es)[1..]);
  }

  lemma CleanPartComesBack(part: string, es: seq<AclEntry>, i: nat, slot: AclEntry)
    requires i < |es| && forall e :: e in es ==> Clean(e)
    requires part == EntryText(es[i]) || part == " " + EntryText(es[i])
    ensures AclFromPart(part, es[i].kind, slot) == es[i]
  {
    assert es[i] in es;
    ParseAclPart(es[i], es[i].kind, slot);
  }

  lemma CleanListRoundTrip(es: seq<AclEntry>, kind: PrincipalType, slots: seq<AclEntry>, at: nat)
    requires es != [] && forall e :: e in es ==> e.kind == kind && Clean(e)
    requires at + |es| <= |slots|
    ensures |Split(Join(", ", Texts(es)), ',')| == |es|
    ensures ParsedAcl(Split(Join(", ", Texts(es)), ','), kind, slots, at) == es
  {
    hide Split, Join, EntryText, AclFromPart, ParsedAcl;
    var parts := CleanParts(es);
    var parsed := ParsedAcl(parts, kind, slots, at);
    forall i | 0 <= i < |es|
      ensures parsed[i] == es[i]
    {
      ParsedAclAt(parts, kind, slots, at, i);
      CleanPartComesBack(parts[i], es, i, slots[at + i]);
    }
    assert parsed == es;
  }

  /** One printed header is read back as it was written, whatever the slots held before, exactly
      when every principal is `Clean`. */
  lemma AclListRoundTripIff(es: seq<AclEntry>, kind: PrincipalType, slots: seq<AclEntry>, at: nat)
    requires es != [] && forall e :: e in es ==> e.kind == kind
    requires at + |es| <= |slots| && at + |Split(Join(", ", Texts(es)), ',')| <= |slots|
    ensures ParsedAcl(Split(Join(", ", Texts(es)), ','), kind, slots, at) == es <==> forall e :: e in es ==> Clean(e)
  {
    if forall e :: e in es ==> Clean(e) {
      CleanListRoundTrip(es, kind, slots, at);
    } else {
      ParsedAreClean(Split(Join(", ", Texts(es)), ','), kind, slots, at);
    }
  }

  lemma ParsedAreClean(parts: seq<string>, kind: PrincipalType, slots: seq<AclEntry>, at: nat)
    requires AllWithout(',', parts) && at + |parts| <= |slots|
    ensures forall e :: e in ParsedAcl(parts, kind, slots, at) ==> Clean(e)
  {
    var parsed := ParsedAcl(parts, kind, slots, at);
    forall i | 0 <= i < |parts|
      ensures Clean(parsed[i])
    {
      ParsedAclAt(parts, kind, slots, at, i);
      ParsedNameIsClean(parts[i]);
    }
  }

  lemma CleanEntryFits(e: AclEntry)
    requires Clean(e)
    ensures PartFits(EntryText(e)) && PartFits(" " + EntryText(e))
  {
    var w := PermissionString(e.permission);
    assert |w| <= 12;
    assert SkipSpaces(w) == w by { assert w[0] in w; }
    ParsePair(e.principal, w);
  }

  /** Every printed list of clean principals fits the parser's buffers. */
  lemma PrintedAclFits(es: seq<AclEntry>)
    requires es != [] && forall e :: e in es ==> Clean(e)
    ensures AclFits(Join(", ", Texts(es)))
  {
    var parts := CleanParts(es);
    forall part | part in parts
      ensures PartFits(part)
    {
      var i :| 0 <= i < |parts| && parts[i] == part;
      assert es[i] in es;
      CleanEntryFits(es[i]);
    }
  }

  function ValueParts(value: Option<string>): seq<string> {
    if value.Some? then Split(value.value, ',') else []
  }

  predicate ValueFits(value: Option<string>) { value.Some? ==> AclFits(value.value) }

  /** What one header adds to an array that is filled up to `at`. */
  function AclOf(value: Option<string>, kind: PrincipalType, slots: seq<AclEntry>, at: nat): (r: seq<AclEntry>)
    requires at + |ValueParts(value)| <= |slots|
    ensures |r| == |ValueParts(value)|
  {
    ParsedAcl(ValueParts(value), kind, slots, at)
  }

  /** What both headers add, users first. */
  function AclOfBoth(users: Option<string>, groups: Option<string>, slots: seq<AclEntry>, at: nat): (r: seq<AclEntry>)
    requires at + |ValueParts(users)| + |ValueParts(groups)| <= |slots|
  {
    AclOf(users, User, slots, at) + AclOf(groups, Group, slots, at + |ValueParts(users)|)
  }

  method ParseAclValue(value: Option<string>, kind: PrincipalType, acl: array<AclEntry>, count: nat)
    returns (acl_count: nat)
    requires ValueFits(value) && count + |ValueParts(value)| <= acl.Length
    modifies acl
    ensures acl_count == count + |ValueParts(value)|
    ensures Filled(acl[..], old(acl[..]), count, AclOf(value, kind, old(acl[..]), count))
  {
    acl_count := count;
    if value.Some? {
      acl_count := ParseAcl(value.value, acl, count, kind);
    }
  }

  method ParseAclValues(users: Option<string>, groups: Option<string>, acl: array<AclEntry>, count: nat)
    returns (acl_count: nat)
    requires ValueFits(users) && ValueFits(groups)
    requires count + |ValueParts(users)| + |ValueParts(groups)| <= acl.Length
    modifies acl
    ensures acl_count == count + |AclOfBoth(users, groups, old(acl[..]), count)|
    ensures Filled(acl[..], old(acl[..]), count, AclOfBoth(users, groups, old(acl[..]), count))
  {
    hide ValueParts, ValueFits, AclOf;
    ghost var was := acl[..];
    acl_count := ParseAclValue(users, User, acl, count);
    ghost var mid := acl[..];
    acl_count := ParseAclValue(groups, Group, acl, acl_count);
    BothHeaders(users, groups, was, mid, acl[..], count);
  }

  lemma AclOfSame(value: Option<string>, kind: PrincipalType, mid: seq<AclEntry>, was: seq<AclEntry>, at: nat)
    requires at + |ValueParts(value)| <= |mid| == |was| && mid[at..] == was[at..]
    ensures AclOf(value, kind, mid, at) == AclOf(value, kind, was, at)
  {
    forall k | at <= k < |was|
      ensures mid[k] == was[k]
    {
      assert mid[at..][k - at] == was[at..][k - at];
    }
    ParsedAclSame(ValueParts(value), kind, mid, was, at);
  }

  lemma BothHeaders(users: Option<string>, groups: Option<string>, was: seq<AclEntry>, mid: seq<AclEntry>,
                    now: seq<AclEntry>, count: nat)
    requires count + |ValueParts(users)| + |ValueParts(groups)| <= |was| == |mid|
    requires Filled(mid, was, count, AclOf(users, User, was, count))
    requires Filled(now, mid, count + |ValueParts(users)|, AclOf(groups, Group, mid, count + |ValueParts(users)|))
    ensures Filled(now, was, count, AclOfBoth(users, groups, was, count))
  {
    hide AclOf, ValueParts;
    var at := count + |ValueParts(users)|;
    AclOfSame(groups, Group, mid, was, at);
    FilledTwice(now, mid, was, count, AclOf(users, User, was, count), AclOf(groups, Group, was, at));
  }

  function UserAcl(headers: seq<string>): Option<string> { HeaderValue(headers, HeaderName(User)) }

  function GroupAcl(headers: seq<string>): Option<string> { HeaderValue(headers, HeaderName(Group)) }

  /** `AtmosUtil_parse_acl_headers`. */
  method ParseAclHeaders(headers: seq<string>, acl: array<AclEntry>, count: nat) returns (acl_count: nat)
    requires ValueFits(UserAcl(headers)) && ValueFits(GroupAcl(headers))
    requires count + |ValueParts(UserAcl(headers))| + |ValueParts(GroupAcl(headers))| <= acl.Length
    modifies acl
    ensures acl_count == count + |AclOfBoth(UserAcl(headers), GroupAcl(headers), old(acl[..]), count)|
    ensures Filled(acl[..], old(acl[..]), count, AclOfBoth(UserAcl(headers), GroupAcl(headers), old(acl[..]), count))
  {
    var users := UserAcl(headers);
    var groups := GroupAcl(headers);
    acl_count := ParseAclValues(users, groups, acl, count);
  }

  lemma AclTextUnspaced(es: seq<AclEntry>)
    requires es != [] && Clean(es[0])
    ensures SkipSpaces(Join(", ", Texts(es))) == Join(", ", Texts(es))
  {
    var t := Join(", ", Texts(es));
    assert t[0] == EntryText(es[0])[0];
    assert es[0].principal != [] ==> SkipSpaces(es[0].principal)[0] == t[0];
  }

  /** The value of the header that carries `es`. */
  function Printed(es: seq<AclEntry>): Option<string> {
    if es == [] then None else Some(Join(", ", Texts(es)))
  }

  /** The lines, letter by letter: a name, and `principal=WORD` with a comma and a space between. */
  lemma PrintedLines(acl: seq<AclEntry>, kind: PrincipalType)
    requires Selected(acl, kind) != []
    ensures AclHeader(acl, kind) ==
              [(if kind == User then "x-emc-useracl: "
                  else "x-emc-groupacl: ") + Join(", ", Texts(Selected(acl, kind)))]
    ensures forall i :: 0 <= i < |Selected(acl, kind)| ==>
              Texts(Selected(acl, kind))[i] ==
                Selected(acl, kind)[i].principal + "=" + PermissionString(Selected(acl, kind)[i].permission)
  {
    AclHeaderText(acl, kind);
    hide Selected, Join, PermissionString;
    assert "x-emc-useracl" + ": " == "x-emc-useracl: " && "x-emc-groupacl" + ": " == "x-emc-groupacl: ";
  }

  lemma AclHeaderText(acl: seq<AclEntry>, kind: PrincipalType)
    ensures AclHeader(acl, kind) ==
            if Selected(acl, kind) == [] then [] else [HeaderName(kind) + ": " + Join(", ", Texts(Selected(acl, kind)))]
  {
    AclTextTail(acl, 0, kind);
    assert acl[0..] == acl;
  }

  /** The two names differ at index 6. */
  lemma AclNames()
    ensures |HeaderName(User)| > 6 && HeaderName(User)[6] == 'u'
    ensures |HeaderName(Group)| > 6 && HeaderName(Group)[6] == 'g'
  {
  }

  lemma AclHeaderValue(acl: seq<AclEntry>, kind: PrincipalType, wanted: PrincipalType)
    requires forall e :: e in acl && e.kind == User ==> Clean(e)
    ensures HeaderValue(AclHeader(acl, kind), HeaderName(wanted)) ==
            if kind == wanted then Printed(Selected(acl, kind)) else None
  {
    AclHeaderText(acl, kind);
    var es := Selected(acl, kind);
    if es != [] {
      if kind == wanted {
        LineValue(HeaderName(kind), Join(", ", Texts(es)));
        SelectedKind(acl, kind);
        assert es[0] in es;
        AclTextUnspaced(es);
      } else {
        AclNames();
        OtherLineValue(HeaderName(kind), Join(", ", Texts(es)), HeaderName(wanted), 6);
      }
    }
  }

  lemma {:induction false} SelectedKind(acl: seq<AclEntry>, kind: PrincipalType)
    requires forall e :: e in acl && e.kind == User ==> Clean(e)
    ensures forall e :: e in Selected(acl, kind) ==> Clean(e) && e.kind == kind
  {
    assert Clean(AclEntry(ATMOS_ACL_GROUP_OTHER, Group, Read));
  }

  lemma AclLookup(acl: seq<AclEntry>, kind: PrincipalType)
    requires forall e :: e in acl && e.kind == User ==> Clean(e)
    ensures HeaderValue(AclHeaders(acl), HeaderName(kind)) == Printed(Selected(acl, kind))
  {
    HeaderValueAppend(AclHeader(acl, User), AclHeader(acl, Group), HeaderName(kind));
    AclHeaderValue(acl, User, kind);
    AclHeaderValue(acl, Group, kind);
  }

  lemma PrintedParses(es: seq<AclEntry>, kind: PrincipalType, slots: seq<AclEntry>, at: nat)
    requires forall e :: e in es ==> e.kind == kind && Clean(e)
    requires at + |es| <= |slots|
    ensures |ValueParts(Printed(es))| == |es|
    ensures AclOf(Printed(es), kind, slots, at) == es
  {
    if es != [] { CleanListRoundTrip(es, kind, slots, at); }
  }

  lemma KindParses(acl: seq<AclEntry>, kind: PrincipalType, slots: seq<AclEntry>, at: nat)
    requires forall e :: e in acl && e.kind == User ==> Clean(e)
    requires at + |Selected(acl, kind)| <= |slots|
    ensures |ValueParts(HeaderValue(AclHeaders(acl), HeaderName(kind)))| == |Selected(acl, kind)|
    ensures AclOf(HeaderValue(AclHeaders(acl), HeaderName(kind)), kind, slots, at) == Selected(acl, kind)
  {
    AclLookup(acl, kind);
    SelectedKind(acl, kind);
    PrintedParses(Selected(acl, kind), kind, slots, at);
  }

  lemma BothOf(users: Option<string>, groups: Option<string>, a: seq<AclEntry>, b: seq<AclEntry>,
      slots: seq<AclEntry>, at: nat)
    requires |ValueParts(users)| == |a| && |ValueParts(groups)| == |b| && at + |a| + |b| <= |slots|
    requires AclOf(users, User, slots, at) == a && AclOf(groups, Group, slots, at + |a|) == b
    ensures AclOfBoth(users, groups, slots, at) == a + b
  {
  }

  lemma KindPrintedParses(acl: seq<AclEntry>, kind: PrincipalType, slots: seq<AclEntry>, at: nat)
    requires forall e :: e in acl && e.kind == User ==> Clean(e)
    requires at + |Selected(acl, kind)| <= |slots|
    ensures |ValueParts(Printed(Selected(acl, kind)))| == |Selected(acl, kind)|
    ensures AclOf(Printed(Selected(acl, kind)), kind, slots, at) == Selected(acl, kind)
  {
    hide AclOf, ValueParts, Selected, Printed, Clean;
    SelectedKind(acl, kind);
    PrintedParses(Selected(acl, kind), kind, slots, at);
  }

  lemma SelectedParse(acl: seq<AclEntry>, slots: seq<AclEntry>, at: nat)
    requires forall e :: e in acl && e.kind == User ==> Clean(e)
    requires at + |Selected(acl, User)| + |Selected(acl, Group)| <= |slots|
    ensures |ValueParts(Printed(Selected(acl, User)))| == |Selected(acl, User)|
    ensures |ValueParts(Printed(Selected(acl, Group)))| == |Selected(acl, Group)|
    ensures AclOfBoth(Printed(Selected(acl, User)), Printed(Selected(acl, Group)), slots, at)
            == Selected(acl, User) + Selected(acl, Group)
  {
    hide AclOf, ValueParts, Selected, Printed, Clean;
    KindPrintedParses(acl, User, slots, at);
    KindPrintedParses(acl, Group, slots, at + |Selected(acl, User)|);
    BothOf(Printed(Selected(acl, User)), Printed(Selected(acl, Group)), Selected(acl, User), Selected(acl, Group),
        slots, at);
  }

  /** Both headers parsed again: the users in their order, then the accepted groups in theirs,
      whatever the array held before. */
  lemma AclRoundTripIsStablePartition(acl: seq<AclEntry>, slots: seq<AclEntry>, at: nat)
    requires forall e :: e in acl && e.kind == User ==> Clean(e)
    requires at + |Selected(acl, User)| + |Selected(acl, Group)| <= |slots|
    ensures |ValueParts(UserAcl(AclHeaders(acl)))| == |Selected(acl, User)|
    ensures |ValueParts(GroupAcl(AclHeaders(acl)))| == |Selected(acl, Group)|
    ensures AclOfBoth(UserAcl(AclHeaders(acl)), GroupAcl(AclHeaders(acl)), slots, at)
            == Selected(acl, User) + Selected(acl, Group)
  {
    hide AclOf, ValueParts, Selected, AclHeaders, HeaderValue;
    KindParses(acl, User, slots, at);
    KindParses(acl, Group, slots, at + |Selected(acl, User)|);
    BothOf(UserAcl(AclHeaders(acl)), GroupAcl(AclHeaders(acl)), Selected(acl, User), Selected(acl, Group), slots, at);
  }

  // ---------------------------------------------------------------- the permission looked up

  function PermissionFor(acl: seq<AclEntry>, principal: string, kind: PrincipalType): Permission {
    if acl == [] then NoAccess
    else if acl[0].principal == principal && acl[0].kind == kind then acl[0].permission
    else PermissionFor(acl[1..], principal, kind)
  }

  predicate Names(e: AclEntry, principal: string, kind: PrincipalType) { e.principal == principal && e.kind == kind }

  /** The first entry that names the principal decides; without one there is no permission. */
  lemma {:induction false} PermissionIsFirst(acl: seq<AclEntry>, principal: string, kind: PrincipalType, k: nat)
    requires k <= |acl| && forall i :: 0 <= i < k ==> !Names(acl[i], principal, kind)
    requires k < |acl| ==> Names(acl[k], principal, kind)
    ensures PermissionFor(acl, principal, kind) == if k < |acl| then acl[k].permission else NoAccess
  {
    if k > 0 { PermissionIsFirst(acl[1..], principal, kind, k - 1); }
  }

  method GetAclPermission(acl: seq<AclEntry>, principal: string, kind: PrincipalType) returns (p: Permission)
    ensures p == PermissionFor(acl, principal, kind)
    ensures || (p == NoAccess && forall i :: 0 <= i < |acl| ==> !Names(acl[i], principal, kind))
            || exists k :: 0 <= k < |acl| && Names(acl[k], principal, kind) && p == acl[k].permission &&
                           forall i :: 0 <= i < k ==> !Names(acl[i], principal, kind)
  {
    assert acl[0..] == acl;
    for i := 0 to |acl|
      invariant PermissionFor(acl[i..], principal, kind) == PermissionFor(acl, principal, kind)
      invariant forall k :: 0 <= k < i ==> !Names(acl[k], principal, kind)
    {
      assert acl[i..][1..] == acl[i + 1..];
      if acl[i].principal == principal && acl[i].kind == kind {
        assert Names(acl[i], principal, kind);
        return acl[i].permission;
      }
    }
    return NoAccess;
  }

  lemma {:induction false} PermissionOfSelected(acl: seq<AclEntry>, principal: string, kind: PrincipalType)
    ensures PermissionFor(Selected(acl, kind), principal, kind) ==
            if kind == User || principal == ATMOS_ACL_GROUP_OTHER then PermissionFor(acl, principal, kind) else NoAccess
  {
    if acl != [] {
      PermissionOfSelected(acl[1..], principal, kind);
      assert Accepted(acl[0], kind) ==> Selected(acl, kind)[1..] == Selected(acl[1..], kind);
    }
  }

  lemma {:induction false} PermissionInConcat(a: seq<AclEntry>, b: seq<AclEntry>, principal: string,
      kind: PrincipalType)
    requires (forall e :: e in a ==> e.kind == kind) && (forall e :: e in b ==> e.kind != kind)
    ensures PermissionFor(a + b, principal, kind) == PermissionFor(a, principal, kind)
    ensures PermissionFor(b + a, principal, kind) == PermissionFor(a, principal, kind)
  {
    if b != [] {
      assert (b + a)[1..] == b[1..] + a;
      assert b[0] in b;
      PermissionInConcat(a, b[1..], principal, kind);
      PermissionOnlyPrefix(a, b, principal, kind);
    } else {
      assert a + b == a && b + a == a;
    }
  }

  lemma {:induction false} PermissionOnlyPrefix(a: seq<AclEntry>, b: seq<AclEntry>, principal: string,
      kind: PrincipalType)
    requires forall e :: e in b ==> e.kind != kind
    ensures PermissionFor(a + b, principal, kind) == PermissionFor(a, principal, kind)
    decreases |a| + |b|
  {
    if a != [] {
      assert (a + b)[1..] == a[1..] + b;
      PermissionOnlyPrefix(a[1..], b, principal, kind);
    } else if b != [] {
      assert a + b == b && b[0] in b;
      assert a + b[1..] == b[1..];
      PermissionOnlyPrefix(a, b[1..], principal, kind);
    }
  }

  /** Going through the headers changes no answer for a user or for the group `other`; any other
      group has lost its entry. */
  lemma RoundTripKeepsPermissions(acl: seq<AclEntry>, principal: string, kind: PrincipalType)
    ensures PermissionFor(Selected(acl, User) + Selected(acl, Group), principal, kind) ==
            if kind == User || principal == ATMOS_ACL_GROUP_OTHER then PermissionFor(acl, principal, kind) else NoAccess
  {
    PermissionOfSelected(acl, principal, kind);
    if kind == User {
      PermissionInConcat(Selected(acl, User), Selected(acl, Group), principal, kind);
    } else {
      PermissionInConcat(Selected(acl, Group), Selected(acl, User), principal, kind);
    }
  }
}
