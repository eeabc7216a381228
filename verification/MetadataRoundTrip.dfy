/** What comes back when printed metadata is parsed: everything in percent-encoded mode, and in
    plain mode exactly the entries that mode can carry. */
module MetadataRoundTrip {
  import opened CStrings
  import opened PercentEncoding
  import opened Rest
  import opened MetadataCodec

  // ---------------------------------------------------------------- the parts of a printed list

  /** Entries from `i` on that are printed at all. */
  function Printed(meta: seq<Metadata>, utf8: bool, i: nat): seq<Metadata>
    requires i <= |meta|
    decreases |meta| - i
  {
    if i == |meta| then []
    else if Rejected(meta[i], utf8) then Printed(meta, utf8, i + 1)
    else [meta[i]] + Printed(meta, utf8, i + 1)
  }

  function Texts(es: seq<Metadata>, utf8: bool): (r: seq<string>)
    ensures |r| == |es| && forall i :: 0 <= i < |es| ==> r[i] == EntryText(es[i], utf8)
  {
    seq(|es|, i requires 0 <= i < |es| => EntryText(es[i], utf8))
  }

  lemma EntryTextWithoutComma(e: Metadata, utf8: bool)
    requires !Rejected(e, utf8)
    ensures ',' !in EntryText(e, utf8)
  {
    if utf8 {
      EncodedWithout(e.name, ',');
      EncodedWithout(e.value, ',');
    } else {
      GoodTextWithout(e.name, ',');
      GoodTextWithout(e.value, ',');
    }
  }

  lemma GoodTextWithout(s: string, c: char)
    requires !BadText(s) && BadChar(c)
    ensures c !in s
  {
    assert forall i :: 0 <= i < |s| ==> !BadChar(s[i]);
  }

  lemma {:induction false} MetaTextTail(meta: seq<Metadata>, utf8: bool, i: nat)
    requires 0 < i <= |meta|
    ensures MetaText(meta, utf8, i) == Prefixed(",", Texts(Printed(meta, utf8, i), utf8))
    ensures AllWithout(',', Texts(Printed(meta, utf8, i), utf8))
    decreases |meta| - i
  {
    hide EntryText, Rejected;
    if i < |meta| {
      MetaTextTail(meta, utf8, i + 1);
      var rest := Printed(meta, utf8, i + 1);
      if !Rejected(meta[i], utf8) {
        EntryTextWithoutComma(meta[i], utf8);
        assert Texts([meta[i]] + rest, utf8) == [EntryText(meta[i], utf8)] + Texts(rest, utf8);
        PrefixedCons(",", EntryText(meta[i], utf8), Texts(rest, utf8));
      } else {
        assert "" + MetaText(meta, utf8, i + 1) == MetaText(meta, utf8, i + 1);
      }
    }
  }

  /** A printed list splits into its printed entries, with an empty part in front when the first
      entry was rejected: the comma of the second one is written all the same. */
  lemma PrintedParts(meta: seq<Metadata>, utf8: bool)
    requires meta != []
    ensures Split(MetaText(meta, utf8, 0), ',') ==
            [if Rejected(meta[0], utf8) then "" else EntryText(meta[0], utf8)] + Texts(Printed(meta, utf8, 1), utf8)
  {
    var rest := Texts(Printed(meta, utf8, 1), utf8);
    MetaTextTail(meta, utf8, 1);
    if !Rejected(meta[0], utf8) {
      EntryTextWithoutComma(meta[0], utf8);
    }
    var first := if Rejected(meta[0], utf8) then "" else EntryText(meta[0], utf8);
    SplitPrefixed(first, rest, ',');
    assert "," == [','];
    assert MetaPiece(meta[0], utf8, false) == first;
  }

  /** The header text of a list none of whose entries is rejected: `name=value`, with commas between. */
  lemma PrintedText(meta: seq<Metadata>, utf8: bool)
    requires meta != [] && forall e :: e in meta ==> !Rejected(e, utf8)
    ensures MetaText(meta, utf8, 0) == Join(",", Texts(meta, utf8))
    ensures forall i :: 0 <= i < |meta| && utf8 ==>
        Texts(meta, utf8)[i] == Encode(meta[i].name) + "=" + Encode(meta[i].value)
    ensures forall i :: 0 <= i < |meta| && !utf8 ==> Texts(meta, utf8)[i] == meta[i].name + "=" + meta[i].value
  {
    hide Rejected, Encode;
    assert meta[0] in meta;
    MetaTextTail(meta, utf8, 1);
    NoneRejected(meta, utf8, 1);
    assert Texts(meta, utf8)[1..] == Texts(meta[1..], utf8);
    assert "" + EntryText(meta[0], utf8) == EntryText(meta[0], utf8);
  }

  lemma {:induction false} NoneRejected(meta: seq<Metadata>, utf8: bool, i: nat)
    requires i <= |meta| && forall e :: e in meta ==> !Rejected(e, utf8)
    ensures Printed(meta, utf8, i) == meta[i..]
    decreases |meta| - i
  {
    hide Rejected;
    if i < |meta| {
      assert meta[i] in meta;
      NoneRejected(meta, utf8, i + 1);
    }
  }

  predicate Printable(s: string) { forall i :: 0 <= i < |s| ==> 32 <= s[i] as int < 128 }

  /** Which entries plain mode rejects. */
  lemma RejectedIff(e: Metadata)
    ensures Rejected(e, false) <==>
              || ',' in e.name || '=' in e.name || !Printable(e.name)
              || ',' in e.value || '=' in e.value || !Printable(e.value)
  {
    BadTextIff(e.name);
    BadTextIff(e.value);
  }

  lemma BadTextIff(s: string)
    ensures BadText(s) <==> ',' in s || '=' in s || !Printable(s)
  {
    if ',' in s || '=' in s || !Printable(s) {
      var i :| 0 <= i < |s| && (s[i] == ',' || s[i] == '=' || !(32 <= s[i] as int < 128));
      assert BadChar(s[i]);
    }
  }

  /** No printed plain text holds a control character or a byte above 127, whatever the list holds. */
  lemma {:induction false} PlainTextIsPrintable(meta: seq<Metadata>, i: nat)
    requires i <= |meta|
    ensures Printable(MetaText(meta, false, i))
    decreases |meta| - i
  {
    hide Rejected;
    if i < |meta| {
      PlainTextIsPrintable(meta, i + 1);
      RejectedIff(meta[i]);
      var e, comma := meta[i], if i > 0 then "," else "";
      assert !Rejected(e, false) ==> Printable(comma + (e.name + "=" + e.value));
    }
  }

  // ---------------------------------------------------------------- percent-encoded mode

  /** The entries a parser of user metadata may return: those not named like system metadata. */
  function UserOnly(meta: seq<Metadata>): (r: seq<Metadata>) {
    if meta == [] then []
    else if IsSystemName(meta[0].name) then UserOnly(meta[1..])
    else [meta[0]] + UserOnly(meta[1..])
  }

  /** Byte strings within the sizes `AtmosMetadata` has room for. */
  predicate FitsMetadata(e: Metadata) {
    && IsCString(e.name) && |e.name| < ATMOS_META_NAME_MAX
    && IsCString(e.value) && |e.value| < ATMOS_META_VALUE_MAX
  }

  lemma ParseEncodedEntry(e: Metadata)
    ensures ParseEntry(EntryText(e, true)) == Metadata(Encode(e.name), Encode(e.value))
  {
    var n, v := Encode(e.name), Encode(e.value);
    EncodedWithout(e.name, '=');
    EncodedWithout(e.name, ' ');
    EncodedWithout(e.value, ' ');
    var t := n + "=" + v;
    assert t[..|n|] == n && t[|n|] == '=' && t[|n| + 1..] == v;
    assert t[0] != ' ' by {
      if n != [] { assert t[0] in n; }
    }
    assert v != [] ==> v[0] in v;
    IndexOfFirst(t, '=', |n|);
  }

  lemma {:induction false} SystemNamesUnreserved(i: nat)
    requires i < |ATMOS_SYSTEM_META_NAMES|
    ensures forall k :: 0 <= k < |ATMOS_SYSTEM_META_NAMES[i]| ==> Unreserved(ATMOS_SYSTEM_META_NAMES[i][k])
    ensures IsCString(ATMOS_SYSTEM_META_NAMES[i])
  {
  }

  /** An encoded name is a system name only if the name itself is one. */
  lemma EncodedSystemName(name: string)
    requires IsCString(name)
    ensures IsSystemName(Encode(name)) <==> IsSystemName(name)
  {
    hide Encode;
    if IsSystemName(Encode(name)) {
      var i :| 0 <= i < |ATMOS_SYSTEM_META_NAMES| && ATMOS_SYSTEM_META_NAMES[i] == Encode(name);
      SystemNamesUnreserved(i);
      EncodeUnreserved(ATMOS_SYSTEM_META_NAMES[i]);
      EncodeInjective(name, ATMOS_SYSTEM_META_NAMES[i]);
    }
    if IsSystemName(name) {
      var i :| 0 <= i < |ATMOS_SYSTEM_META_NAMES| && ATMOS_SYSTEM_META_NAMES[i] == name;
      SystemNamesUnreserved(i);
      EncodeUnreserved(name);
    }
  }

  /** What is stored of an entry: at most 1023 bytes of each half. */
  function Copied(e: Metadata): Metadata {
    Metadata(Truncate(e.name, ATMOS_META_VALUE_MAX), Truncate(e.value, ATMOS_META_VALUE_MAX))
  }

  function UserCopied(es: seq<Metadata>): seq<Metadata> {
    if es == [] then []
    else if IsSystemName(es[0].name) then UserCopied(es[1..])
    else [Copied(es[0])] + UserCopied(es[1..])
  }

  predicate CStringEntries(es: seq<Metadata>) {
    forall i :: 0 <= i < |es| ==> IsCString(es[i].name) && IsCString(es[i].value)
  }

  lemma StoredDecodes(s: string)
    requires IsCString(s)
    ensures Stored(Encode(s), true) == Truncate(s, ATMOS_META_VALUE_MAX)
  {
    DecodeEncode(s);
    IndexOfFirst(s, NUL, |s|);
  }

  lemma {:induction false} EncodedEntriesParse(es: seq<Metadata>)
    requires CStringEntries(es)
    ensures UserEntries(Texts(es, true), true) == UserCopied(es)
  {
    hide EntryText, ParseEntry, Stored, IsSystemName, IsCString;
    if es != [] {
      EncodedEntriesParse(es[1..]);
      assert Texts(es, true)[1..] == Texts(es[1..], true);
      ParseEncodedEntry(es[0]);
      EncodedSystemName(es[0].name);
      StoredDecodes(es[0].name);
      StoredDecodes(es[0].value);
    }
  }

  /** Nothing the user list keeps of an entry is too long to be copied. */
  predicate Whole(e: Metadata) {
    IsSystemName(e.name) || (|e.name| < ATMOS_META_VALUE_MAX && |e.value| < ATMOS_META_VALUE_MAX)
  }

  lemma {:induction false} UserCopiedIs(es: seq<Metadata>)
    ensures UserCopied(es) == UserOnly(es) <==> forall k :: 0 <= k < |es| ==> Whole(es[k])
    ensures |UserCopied(es)| == |UserOnly(es)|
  {
    hide IsSystemName;
    if es != [] {
      UserCopiedIs(es[1..]);
      var a, b := UserCopied(es[1..]), UserOnly(es[1..]);
      if !IsSystemName(es[0].name) {
        assert ([Copied(es[0])] + a)[0] == Copied(es[0]) && ([es[0]] + b)[0] == es[0];
        assert ([Copied(es[0])] + a)[1..] == a && ([es[0]] + b)[1..] == b;
      }
      assert forall k :: 1 <= k < |es| ==> es[k] == es[1..][k - 1];
    }
  }

  lemma {:induction false} AllPrinted(meta: seq<Metadata>, i: nat)
    requires i <= |meta|
    ensures Printed(meta, true, i) == meta[i..]
    decreases |meta| - i
  {
    if i < |meta| { AllPrinted(meta, i + 1); }
  }

  lemma EncodedListParses(meta: seq<Metadata>)
    requires meta != [] && CStringEntries(meta)
    ensures Split(MetaText(meta, true, 0), ',') == Texts(meta, true)
    ensures ParseUserMeta(MetaText(meta, true, 0), true) == UserCopied(meta)
  {
    hide EntryText, MetaText, Split, UserCopied, IsCString;
    PrintedParts(meta, true);
    AllPrinted(meta, 1);
    assert [EntryText(meta[0], true)] + Texts(meta[1..], true) == Texts(meta, true);
    EncodedEntriesParse(meta);
  }

  /** Percent-encoded metadata comes back entry by entry, in order, whatever bytes it holds; only
      entries named like system metadata are skipped. */
  lemma Utf8RoundTrip(meta: seq<Metadata>)
    requires meta != [] && forall e :: e in meta ==> FitsMetadata(e)
    ensures ParseUserMeta(MetaText(meta, true, 0), true) == UserOnly(meta)
  {
    hide MetaText, ParseUserMeta, UserCopied, UserOnly, IsCString, IsSystemName;
    forall i | 0 <= i < |meta|
      ensures FitsMetadata(meta[i])
    {
      assert meta[i] in meta;
    }
    EncodedListParses(meta);
    UserCopiedIs(meta);
  }

  lemma EncodedEntryFits(e: Metadata)
    requires IsCString(e.name) && IsCString(e.value)
    ensures BufferFits(EntryText(e, true)) <==>
              && |Encode(e.name)| < 3 * ATMOS_META_NAME_MAX && |Encode(e.value)| < 3 * ATMOS_META_VALUE_MAX
    ensures EntryFits(EntryText(e, true), true) <==>
              |e.name| < ATMOS_META_NAME_MAX && |Encode(e.value)| < 3 * ATMOS_META_VALUE_MAX
  {
    ParseEncodedEntry(e);
    EncodedLength(e.name);
    StoredDecodes(e.name);
    hide Encode, ParseEntry, Stored, IsCString;
  }

  lemma EncodedListFits(meta: seq<Metadata>)
    requires meta != [] && CStringEntries(meta)
    ensures HeaderFits(MetaText(meta, true, 0), true) <==>
              forall k :: 0 <= k < |meta| ==>
                |meta[k].name| < ATMOS_META_NAME_MAX && |Encode(meta[k].value)| < 3 * ATMOS_META_VALUE_MAX
    ensures BuffersFit(MetaText(meta, true, 0)) <==>
              forall k :: 0 <= k < |meta| ==>
                |Encode(meta[k].name)| < 3 * ATMOS_META_NAME_MAX && |Encode(meta[k].value)| < 3 * ATMOS_META_VALUE_MAX
  {
    hide Encode, EntryText, EntryFits, BufferFits, MetaText, Split, IsCString;
    EncodedListParses(meta);
    var parts := Texts(meta, true);
    forall k | 0 <= k < |meta|
      ensures EntryFits(parts[k], true) <==>
                |meta[k].name| < ATMOS_META_NAME_MAX && |Encode(meta[k].value)| < 3 * ATMOS_META_VALUE_MAX
      ensures BufferFits(parts[k]) <==>
                |Encode(meta[k].name)| < 3 * ATMOS_META_NAME_MAX && |Encode(meta[k].value)| < 3 * ATMOS_META_VALUE_MAX
    {
      EncodedEntryFits(meta[k]);
    }
    assert forall k :: 0 <= k < |meta| ==> parts[k] in parts;
  }

  /** What a caller can check before printing: the name fits its array; a value that is kept fits its
      own, and one that is skipped fits the parser's buffer. */
  predicate Encodable(e: Metadata) {
    && |e.name| < ATMOS_META_NAME_MAX
    && (if IsSystemName(e.name) then |Encode(e.value)| < 3 * ATMOS_META_VALUE_MAX else |e.value| < ATMOS_META_VALUE_MAX)
  }

  /** The percent-encoded round trip stays within the parser's arrays and gives all user entries back
      exactly when every entry is `Encodable`. */
  lemma Utf8RoundTripIff(meta: seq<Metadata>)
    requires meta != [] && CStringEntries(meta)
    ensures HeaderFits(MetaText(meta, true, 0), true) && ParseUserMeta(MetaText(meta, true, 0), true) == UserOnly(meta)
            <==> forall k :: 0 <= k < |meta| ==> Encodable(meta[k])
  {
    hide Encode, MetaText, ParseUserMeta, HeaderFits, UserCopied, UserOnly, IsSystemName, IsCString;
    EncodedListParses(meta);
    UserCopiedIs(meta);
    EncodedListFits(meta);
    forall k | 0 <= k < |meta|
      ensures |Encode(meta[k].value)| <= 3 * |meta[k].value|
    {
      EncodedLength(meta[k].value);
    }
  }

  /** Names of 255 bytes and more pass the local buffers and overrun the array they are copied to. */
  lemma Utf8NameLimit(meta: seq<Metadata>)
    requires meta != [] && CStringEntries(meta) && BuffersFit(MetaText(meta, true, 0))
    ensures HeaderFits(MetaText(meta, true, 0), true) <==> forall k :: 0 <= k < |meta| ==> |meta[k].name| < 255
  {
    hide Encode, MetaText, HeaderFits, BuffersFit, IsCString;
    EncodedListFits(meta);
  }

  // ---------------------------------------------------------------- first-match lookup

  function Lookup(name: string, meta: seq<Metadata>): Option<string> {
    if meta == [] then None
    else if meta[0].name == name then Some(meta[0].value)
    else Lookup(name, meta[1..])
  }

  /** The first entry with the name answers, and nothing if there is none. */
  lemma {:induction false} LookupIsFirst(name: string, meta: seq<Metadata>, k: nat)
    requires k <= |meta| && forall i :: 0 <= i < k ==> meta[i].name != name
    requires k < |meta| ==> meta[k].name == name
    ensures Lookup(name, meta) == if k < |meta| then Some(meta[k].value) else None
  {
    if k > 0 { LookupIsFirst(name, meta[1..], k - 1); }
  }

  method GetMetadataValue(name: string, meta: seq<Metadata>) returns (value: Option<string>)
    ensures value == Lookup(name, meta)
    ensures value.None? ==> forall i :: 0 <= i < |meta| ==> meta[i].name != name
    ensures value.Some? ==> exists k :: 0 <= k < |meta| && meta[k] == Metadata(name, value.value) &&
                                        forall i :: 0 <= i < k ==> meta[i].name != name
  {
    assert meta[0..] == meta;
    for i := 0 to |meta|
      invariant Lookup(name, meta[i..]) == Lookup(name, meta)
      invariant forall k :: 0 <= k < i ==> meta[k].name != name
    {
      assert meta[i..][1..] == meta[i + 1..];
      if meta[i].name == name { return Some(meta[i].value); }
    }
    return None;
  }

  lemma {:induction false} UserOnlyLookup(name: string, meta: seq<Metadata>)
    ensures Lookup(name, UserOnly(meta)) == if IsSystemName(name) then None else Lookup(name, meta)
  {
    if meta != [] {
      UserOnlyLookup(name, meta[1..]);
      assert !IsSystemName(meta[0].name) ==> UserOnly(meta)[1..] == UserOnly(meta[1..]);
    }
  }

  // ---------------------------------------------------------------- plain mode

  /** A printed plain entry as it is parsed: spaces in front of the name and the value are lost,
      an entry that then has a system name is skipped. */
  function PlainParsed(es: seq<Metadata>): seq<Metadata> {
    if es == [] then []
    else
      var e := Metadata(SkipSpaces(es[0].name), SkipSpaces(es[0].value));
      if IsSystemName(e.name) then PlainParsed(es[1..]) else [AsStored(e, false)] + PlainParsed(es[1..])
  }

  lemma ParsePlainEntry(e: Metadata)
    requires '=' !in e.name
    ensures ParseEntry(EntryText(e, false)) == Metadata(SkipSpaces(e.name), SkipSpaces(e.value))
  {
    var n := SkipSpaces(e.name);
    var m := |e.name| - |n|;
    SkippedSpaces(e.name);
    var t := EntryText(e, false);
    assert t[m..] == n + "=" + e.value;
    assert t[m] != ' ';
    SkipSpacesIs(t, m);
    var u := n + "=" + e.value;
    assert u[..|n|] == n && u[|n|] == '=' && u[|n| + 1..] == e.value;
    IndexOfFirst(u, '=', |n|);
  }

  lemma {:induction false} PlainEntriesParse(es: seq<Metadata>)
    requires forall e :: e in es ==> !Rejected(e, false)
    ensures UserEntries(Texts(es, false), false) == PlainParsed(es)
  {
    if es != [] {
      assert es[0] in es && forall e :: e in es[1..] ==> e in es;
      PlainEntriesParse(es[1..]);
      assert Texts(es, false)[1..] == Texts(es[1..], false);
      GoodTextWithout(es[0].name, '=');
      ParsePlainEntry(es[0]);
    }
  }

  lemma {:induction false} PrintedNotRejected(meta: seq<Metadata>, utf8: bool, i: nat)
    requires i <= |meta|
    ensures forall e :: e in Printed(meta, utf8, i) ==> !Rejected(e, utf8)
    ensures |Printed(meta, utf8, i)| <= |meta| - i
    decreases |meta| - i
  {
    if i < |meta| { PrintedNotRejected(meta, utf8, i + 1); }
  }

  lemma EmptyPart(rest: seq<string>, utf8: bool)
    ensures UserEntries([""] + rest, utf8) == [Metadata("", "")] + UserEntries(rest, utf8)
  {
    assert ([""] + rest)[1..] == rest;
    assert !IsSystemName("") by {
      assert forall i :: 0 <= i < |ATMOS_SYSTEM_META_NAMES| ==> |ATMOS_SYSTEM_META_NAMES[i]| > 0;
    }
    assert ParseEntry("") == Metadata("", "");
    assert Stored("", utf8) == "";
  }

  /** Plain metadata, exactly: the accepted entries in order, and one empty entry in front of them
      when the first one was rejected. */
  lemma PlainRoundTripExact(meta: seq<Metadata>)
    requires meta != []
    ensures ParseUserMeta(MetaText(meta, false, 0), false) ==
            (if Rejected(meta[0], false) then [Metadata("", "")] else []) + PlainParsed(Printed(meta, false, 0))
  {
    PrintedParts(meta, false);
    PrintedNotRejected(meta, false, 0);
    PrintedNotRejected(meta, false, 1);
    var rest := Printed(meta, false, 1);
    if Rejected(meta[0], false) {
      EmptyPart(Texts(rest, false), false);
      PlainEntriesParse(rest);
    } else {
      assert [EntryText(meta[0], false)] + Texts(rest, false) == Texts([meta[0]] + rest, false);
      PlainEntriesParse([meta[0]] + rest);
    }
  }

  /** Text plain mode does not change: no rejected character, no space in front, no system name, no
      more than what the parser copies. */
  predicate Kept(e: Metadata) {
    && !Rejected(e, false)
    && SkipSpaces(e.name) == e.name && SkipSpaces(e.value) == e.value
    && !IsSystemName(e.name)
    && |e.name| < ATMOS_META_VALUE_MAX && |e.value| < ATMOS_META_VALUE_MAX
  }

  /** What a caller can check before printing: the same, with the size a name really has. */
  predicate Plain(e: Metadata) { Kept(e) && |e.name| < ATMOS_META_NAME_MAX }

  lemma {:induction false} PlainParsedLength(es: seq<Metadata>)
    ensures |PlainParsed(es)| <= |es|
  {
    if es != [] { PlainParsedLength(es[1..]); }
  }

  lemma {:induction false} PlainListParses(meta: seq<Metadata>, i: nat)
    requires i <= |meta|
    ensures PlainParsed(Printed(meta, false, i)) == meta[i..] <==> forall k :: i <= k < |meta| ==> Kept(meta[k])
    decreases |meta| - i
  {
    if i < |meta| {
      PlainListParses(meta, i + 1);
      PrintedNotRejected(meta, false, i + 1);
      var rest := Printed(meta, false, i + 1);
      PlainParsedLength(rest);
      assert meta[i..] == [meta[i]] + meta[i + 1..];
      if !Rejected(meta[i], false) {
        assert ([meta[i]] + rest)[1..] == rest;
        if IsSystemName(SkipSpaces(meta[i].name)) {
          assert PlainParsed([meta[i]] + rest) == PlainParsed(rest);
        } else {
          var e := AsStored(Metadata(SkipSpaces(meta[i].name), SkipSpaces(meta[i].value)), false);
          assert PlainParsed([meta[i]] + rest) == [e] + PlainParsed(rest);
          PlainEntryKept(meta[i]);
          assert ([e] + PlainParsed(rest))[0] == e && ([e] + PlainParsed(rest))[1..] == PlainParsed(rest);
        }
      }
    }
  }

  lemma PlainEntryKept(e: Metadata)
    requires !Rejected(e, false) && !IsSystemName(SkipSpaces(e.name))
    ensures AsStored(Metadata(SkipSpaces(e.name), SkipSpaces(e.value)), false) == e <==> Kept(e)
  {
  }

  // ---------------------------------------------------------------- the parser's buffers

  lemma PrintedEntryFits(e: Metadata, utf8: bool)
    requires FitsMetadata(e) && !Rejected(e, utf8)
    ensures EntryFits(EntryText(e, utf8), utf8)
  {
    if utf8 {
      ParseEncodedEntry(e);
      EncodedLength(e.name);
      EncodedLength(e.value);
      StoredDecodes(e.name);
    } else {
      GoodTextWithout(e.name, '=');
      ParsePlainEntry(e);
    }
  }

  /** Whatever is printed from entries of the documented sizes fits the local buffers of the
      parser, in either mode: its precondition holds on every printed header. */
  lemma PrintedHeaderFits(meta: seq<Metadata>, utf8: bool)
    requires meta != [] && forall e :: e in meta ==> FitsMetadata(e)
    ensures HeaderFits(MetaText(meta, utf8, 0), utf8)
  {
    PrintedParts(meta, utf8);
    PrintedAmong(meta, utf8, 1);
    var printed := Printed(meta, utf8, 1);
    assert EntryFits("", utf8) by {
      assert ParseEntry("") == Metadata("", "");
    }
    if !Rejected(meta[0], utf8) { PrintedEntryFits(meta[0], utf8); }
    forall i | 0 <= i < |printed|
      ensures EntryFits(Texts(printed, utf8)[i], utf8)
    {
      assert printed[i] in printed;
      PrintedEntryFits(printed[i], utf8);
    }
  }

  lemma {:induction false} PrintedAmong(meta: seq<Metadata>, utf8: bool, i: nat)
    requires i <= |meta|
    ensures forall e :: e in Printed(meta, utf8, i) ==> e in meta && !Rejected(e, utf8)
    decreases |meta| - i
  {
    if i < |meta| { PrintedAmong(meta, utf8, i + 1); }
  }

  lemma KeptListComesBack(meta: seq<Metadata>)
    requires meta != []
    ensures ParseUserMeta(MetaText(meta, false, 0), false) == meta <==> forall k :: 0 <= k < |meta| ==> Kept(meta[k])
  {
    PlainRoundTripExact(meta);
    PlainListParses(meta, 0);
    assert meta[0..] == meta;
    if Rejected(meta[0], false) {
      assert !BadText("");
      assert !Rejected(Metadata("", ""), false);
    }
  }

  lemma KeptEntryFits(e: Metadata)
    requires Kept(e)
    ensures EntryFits(EntryText(e, false), false) <==> |e.name| < ATMOS_META_NAME_MAX
  {
    GoodTextWithout(e.name, '=');
    ParsePlainEntry(e);
  }

  lemma {:induction false} KeptAllPrinted(meta: seq<Metadata>, i: nat)
    requires i <= |meta| && forall k :: 0 <= k < |meta| ==> Kept(meta[k])
    ensures Printed(meta, false, i) == meta[i..]
    decreases |meta| - i
  {
    if i < |meta| { KeptAllPrinted(meta, i + 1); }
  }

  /** Names are copied with the size limit of values. Of entries that would come back, exactly those
      with a name of less than 255 bytes also fit the array the name is copied to. */
  lemma NameLimit(meta: seq<Metadata>)
    requires meta != [] && forall k :: 0 <= k < |meta| ==> Kept(meta[k])
    ensures ParseUserMeta(MetaText(meta, false, 0), false) == meta
    ensures HeaderFits(MetaText(meta, false, 0), false) <==> forall k :: 0 <= k < |meta| ==> |meta[k].name| < 255
  {
    KeptListComesBack(meta);
    PrintedParts(meta, false);
    KeptAllPrinted(meta, 1);
    var parts := Split(MetaText(meta, false, 0), ',');
    assert parts == Texts(meta, false);
    forall k | 0 <= k < |meta|
      ensures EntryFits(parts[k], false) <==> |meta[k].name| < ATMOS_META_NAME_MAX
    {
      KeptEntryFits(meta[k]);
    }
  }

  /** The plain round trip stays within the parser's buffers and gives the list back exactly when
      every entry is `Plain`. */
  lemma PlainRoundTripIff(meta: seq<Metadata>)
    requires meta != []
    ensures HeaderFits(MetaText(meta, false, 0), false) && ParseUserMeta(MetaText(meta, false, 0), false) == meta
            <==> forall k :: 0 <= k < |meta| ==> Plain(meta[k])
  {
    KeptListComesBack(meta);
    if forall k :: 0 <= k < |meta| ==> Kept(meta[k]) { NameLimit(meta); }
  }

  // ---------------------------------------------------------------- through the headers

  predicate Utf8Response(headers: seq<string>) {
    HeaderValue(headers, ATMOS_HEADER_UTF8) == Some("true")
  }

  function ParsedHeader(headers: seq<string>, name: string): seq<Metadata> {
    var value := HeaderValue(headers, name);
    if value.Some? then ParseUserMeta(value.value, Utf8Response(headers)) else []
  }

  /** `AtmosUtil_parse_user_meta_headers`: two lookups, two lists, one mode for both. */
  method ParseUserMetaHeaders(headers: seq<string>, meta: array<Metadata>, count: nat,
                              listable: array<Metadata>, listableCount: nat)
    returns (meta_count: nat, listable_count: nat)
    requires meta != listable
    requires forall name | name in [ATMOS_HEADER_META, ATMOS_HEADER_LISTABLE_META] ::
               HeaderValue(headers, name).Some? ==> HeaderFits(HeaderValue(headers, name).value, Utf8Response(headers))
    requires count + |ParsedHeader(headers, ATMOS_HEADER_META)| <= meta.Length
    requires listableCount + |ParsedHeader(headers, ATMOS_HEADER_LISTABLE_META)| <= listable.Length
    modifies meta, listable
    ensures meta_count == count + |ParsedHeader(headers, ATMOS_HEADER_META)|
    ensures listable_count == listableCount + |ParsedHeader(headers, ATMOS_HEADER_LISTABLE_META)|
    ensures Filled(meta[..], old(meta[..]), count, ParsedHeader(headers, ATMOS_HEADER_META))
    ensures Filled(listable[..], old(listable[..]), listableCount, ParsedHeader(headers, ATMOS_HEADER_LISTABLE_META))
  {
    var utf8 := false;
    var value := HeaderValue(headers, ATMOS_HEADER_UTF8);
    if value.Some? {
      if "true" == value.value { utf8 := true; }
    }
    meta_count, listable_count := count, listableCount;
    value := HeaderValue(headers, ATMOS_HEADER_META);
    if value.Some? {
      assert ATMOS_HEADER_META in [ATMOS_HEADER_META, ATMOS_HEADER_LISTABLE_META];
      meta_count := ParseMetaHeaderString(value.value, meta, count, utf8);
    }
    value := HeaderValue(headers, ATMOS_HEADER_LISTABLE_META);
    if value.Some? {
      assert ATMOS_HEADER_LISTABLE_META in [ATMOS_HEADER_META, ATMOS_HEADER_LISTABLE_META];
      listable_count := ParseMetaHeaderString(value.value, listable, listableCount, utf8);
    }
  }

  /** The metadata lines a write request carries. */
  function MetaHeaders(meta: seq<Metadata>, listable: seq<Metadata>, utf8: bool): seq<string> {
    MetaHeader(meta, false, utf8) + MetaHeader(listable, true, utf8)
    + (if utf8 then [ATMOS_HEADER_UTF8 + ": true"] else [])
  }

  lemma FirstPart(part: string, rest: seq<string>, utf8: bool)
    ensures UserEntries([part] + rest, utf8) ==
            (if IsSystemName(ParseEntry(part).name) then [] else [AsStored(ParseEntry(part), utf8)])
            + UserEntries(rest, utf8)
  {
    hide ParseEntry, AsStored, IsSystemName;
    assert ([part] + rest)[1..] == rest;
  }

  lemma OneSpaceDoesNotCount(text: string, utf8: bool)
    requires text != "" && text[0] == ' '
    ensures ParseUserMeta(text[1..], utf8) == ParseUserMeta(text, utf8)
  {
    hide AsStored, IsSystemName;
    var tail := text[1..];
    var k := IndexOf(tail, ',');
    assert IndexOf(text, ',') == k + 1;
    assert text[..k + 1][1..] == tail[..k];
    assert ParseEntry(text[..k + 1]) == ParseEntry(tail[..k]);
    if k < |tail| {
      assert text[k + 2..] == tail[k + 1..];
      FirstPart(text[..k + 1], Split(tail[k + 1..], ','), utf8);
      FirstPart(tail[..k], Split(tail[k + 1..], ','), utf8);
    } else {
      assert text[..k + 1] == text && tail[..k] == tail;
      FirstPart(text, [], utf8);
      FirstPart(tail, [], utf8);
      assert [text] + [] == [text] && [tail] + [] == [tail];
    }
  }

  /** Spaces in front of the first entry do not count, so the lookup may drop them. */
  lemma {:induction false} LeadingSpacesDoNotCount(text: string, utf8: bool)
    ensures ParseUserMeta(SkipSpaces(text), utf8) == ParseUserMeta(text, utf8)
  {
    hide ParseUserMeta;
    if text != "" && text[0] == ' ' {
      LeadingSpacesDoNotCount(text[1..], utf8);
      OneSpaceDoesNotCount(text, utf8);
    }
  }

  /** The three names differ at index 6. */
  lemma MetaNames()
    ensures |ATMOS_HEADER_META| > 6 && ATMOS_HEADER_META[6] == 'm'
    ensures |ATMOS_HEADER_LISTABLE_META| > 6 && ATMOS_HEADER_LISTABLE_META[6] == 'l'
    ensures |ATMOS_HEADER_UTF8| > 6 && ATMOS_HEADER_UTF8[6] == 'u'
  {
  }

  lemma MetaHeaderValue(meta: seq<Metadata>, listable: bool, utf8: bool, name: string)
    requires |name| > 6 && name[6] in "mlu"
    requires name[6] == (if listable then 'l' else 'm') ==> name == MetaHeaderName(listable)
    ensures HeaderValue(MetaHeader(meta, listable, utf8), name) ==
            if meta != [] && name == MetaHeaderName(listable) then Some(SkipSpaces(MetaText(meta, utf8, 0))) else None
  {
    hide HeaderValue, MetaText, SkipSpaces;
    if meta != [] {
      MetaNames();
      if name == MetaHeaderName(listable) {
        LineValue(name, MetaText(meta, utf8, 0));
      } else {
        OtherLineValue(MetaHeaderName(listable), MetaText(meta, utf8, 0), name, 6);
      }
    } else {
      NoneNamed([], name);
    }
  }

  lemma ModeValue(name: string)
    requires |name| > 6 && name[6] in "mlu" && (name[6] == 'u' ==> name == ATMOS_HEADER_UTF8)
    ensures HeaderValue([ATMOS_HEADER_UTF8 + ": true"], name) ==
            if name == ATMOS_HEADER_UTF8 then Some("true") else None
  {
    hide HeaderValue;
    assert ATMOS_HEADER_UTF8 + ": true" == ATMOS_HEADER_UTF8 + ": " + "true";
    MetaNames();
    if name == ATMOS_HEADER_UTF8 {
      LineValue(name, "true");
    } else {
      OtherLineValue(ATMOS_HEADER_UTF8, "true", name, 6);
    }
  }

  lemma MetaHeadersValue(meta: seq<Metadata>, listable: seq<Metadata>, utf8: bool, name: string)
    requires name == ATMOS_HEADER_META || name == ATMOS_HEADER_LISTABLE_META || name == ATMOS_HEADER_UTF8
    ensures HeaderValue(MetaHeaders(meta, listable, utf8), name) ==
            if name[6] == 'm' then (if meta != [] then Some(SkipSpaces(MetaText(meta, utf8, 0))) else None)
            else if name[6] == 'l' then (if listable != [] then Some(SkipSpaces(MetaText(listable, utf8, 0))) else None)
            else if utf8 then Some("true") else None
  {
    hide HeaderValue, MetaText, SkipSpaces, MetaHeader;
    MetaNames();
    var h1, h2 := MetaHeader(meta, false, utf8), MetaHeader(listable, true, utf8);
    var mode: seq<string> := if utf8 then [ATMOS_HEADER_UTF8 + ": true"] else [];
    HeaderValueAppend(h1 + h2, mode, name);
    HeaderValueAppend(h1, h2, name);
    MetaHeaderValue(meta, false, utf8, name);
    MetaHeaderValue(listable, true, utf8, name);
    if utf8 { ModeValue(name); } else { NoneNamed([], name); }
  }

  /** The list one printed text gives back. */
  function Back(meta: seq<Metadata>, utf8: bool): seq<Metadata> {
    if meta == [] then [] else ParseUserMeta(MetaText(meta, utf8, 0), utf8)
  }

  /** Through the header lines of a request and the lookups of a response each list gives back what
      its own text gives back, in either mode. */
  lemma HeadersKeepLists(meta: seq<Metadata>, listable: seq<Metadata>, utf8: bool)
    ensures ParsedHeader(MetaHeaders(meta, listable, utf8), ATMOS_HEADER_META) == Back(meta, utf8)
    ensures ParsedHeader(MetaHeaders(meta, listable, utf8), ATMOS_HEADER_LISTABLE_META) == Back(listable, utf8)
  {
    hide HeaderValue, MetaText, MetaHeaders, ParseUserMeta, SkipSpaces;
    MetaHeadersValue(meta, listable, utf8, ATMOS_HEADER_META);
    MetaHeadersValue(meta, listable, utf8, ATMOS_HEADER_LISTABLE_META);
    MetaHeadersValue(meta, listable, utf8, ATMOS_HEADER_UTF8);
    MetaNames();
    LeadingSpacesDoNotCount(MetaText(meta, utf8, 0), utf8);
    LeadingSpacesDoNotCount(MetaText(listable, utf8, 0), utf8);
  }

  /** Percent-encoded: both kinds of metadata survive, and stay apart. */
  lemma Utf8HeadersRoundTrip(meta: seq<Metadata>, listable: seq<Metadata>)
    requires forall e :: e in meta || e in listable ==> FitsMetadata(e)
    ensures ParsedHeader(MetaHeaders(meta, listable, true), ATMOS_HEADER_META) == UserOnly(meta)
    ensures ParsedHeader(MetaHeaders(meta, listable, true), ATMOS_HEADER_LISTABLE_META) == UserOnly(listable)
  {
    hide ParsedHeader, MetaHeaders, MetaText, ParseUserMeta;
    HeadersKeepLists(meta, listable, true);
    if meta != [] { Utf8RoundTrip(meta); }
    if listable != [] { Utf8RoundTrip(listable); }
  }

  /** What comes back of a plain list. */
  function PlainBack(meta: seq<Metadata>): seq<Metadata> {
    (if meta != [] && Rejected(meta[0], false) then [Metadata("", "")] else []) + PlainParsed(Printed(meta, false, 0))
  }

  /** Plain: the same two lists as from the texts, for any metadata. */
  lemma PlainHeadersRoundTrip(meta: seq<Metadata>, listable: seq<Metadata>)
    ensures ParsedHeader(MetaHeaders(meta, listable, false), ATMOS_HEADER_META) == PlainBack(meta)
    ensures ParsedHeader(MetaHeaders(meta, listable, false), ATMOS_HEADER_LISTABLE_META) == PlainBack(listable)
  {
    hide ParsedHeader, MetaHeaders, MetaText, ParseUserMeta, Rejected;
    HeadersKeepLists(meta, listable, false);
    if meta != [] { PlainRoundTripExact(meta); }
    if listable != [] { PlainRoundTripExact(listable); }
  }
}
