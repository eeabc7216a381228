/** Metadata lists as header text: the printer `AtmosUtil_set_metadata_header` and the parsers of
    `x-emc-meta` and `x-emc-listable-meta`, in plain and in percent-encoded mode. */
module MetadataCodec {
  import opened CStrings
  import opened PercentEncoding
  import opened StringBuffer
  import opened Rest

  datatype Metadata = Metadata(name: string, value: string)

  const ATMOS_HEADER_META := "x-emc-meta"
  const ATMOS_HEADER_LISTABLE_META := "x-emc-listable-meta"
  const ATMOS_HEADER_UTF8 := "x-emc-utf8"
  const ATMOS_META_NAME_MAX: nat := 255
  const ATMOS_META_VALUE_MAX: nat := 1024

  const ATMOS_SYSTEM_META_NAMES: seq<string> := [
    "atime", "ctime", "gid", "itime", "mtime", "nlink", "objectid", "objname", "policyname",
    "size", "type", "uid", "x-emc-wschecksum"]

  predicate IsSystemName(name: string) { name in ATMOS_SYSTEM_META_NAMES }

  method IsSystemMetaName(name: string) returns (found: bool)
    ensures found <==> IsSystemName(name)
  {
    for i := 0 to |ATMOS_SYSTEM_META_NAMES|
      invariant name !in ATMOS_SYSTEM_META_NAMES[..i]
    {
      if ATMOS_SYSTEM_META_NAMES[i] == name { return true; }
    }
    return false;
  }

  // ---------------------------------------------------------------- printing

  /** Characters plain mode cannot carry; a byte of 128 or more is one of them. */
  predicate BadChar(c: char) {
    c == ',' || c == '\n' || c == '=' || c as int < 32 || c as int >= 128
  }

  predicate BadText(s: string) { exists i :: 0 <= i < |s| && BadChar(s[i]) }

  method MetaCharCheck(str: string) returns (bad: bool)
    ensures bad <==> BadText(str)
  {
    for i := 0 to |str|
      invariant forall k :: 0 <= k < i ==> !BadChar(str[k])
    {
      match str[i]
      case ',' => return true;
      case '\n' => return true;
      case '=' => return true;
      case _ =>
      if str[i] as int < 32 { return true; }
      if str[i] as int >= 128 { return true; }
    }
    return false;
  }

  predicate Rejected(e: Metadata, utf8: bool) {
    !utf8 && (BadText(e.name) || BadText(e.value))
  }

  function EntryText(e: Metadata, utf8: bool): string {
    if utf8 then Encode(e.name) + "=" + Encode(e.value) else e.name + "=" + e.value
  }

  /** What one entry contributes: nothing when it is rejected. */
  function MetaPiece(e: Metadata, utf8: bool, comma: bool): string {
    if Rejected(e, utf8) then "" else (if comma then "," else "") + EntryText(e, utf8)
  }

  /** The list from entry `i` on. The comma depends on the index, not on what was printed. */
  function MetaText(meta: seq<Metadata>, utf8: bool, i: nat): string
    requires i <= |meta|
    decreases |meta| - i
  {
    if i == |meta| then "" else MetaPiece(meta[i], utf8, i > 0) + MetaText(meta, utf8, i + 1)
  }

  function MetaHeaderName(listable: bool): string {
    if listable then ATMOS_HEADER_LISTABLE_META else ATMOS_HEADER_META
  }

  /** The header lines one call adds: one, or none for an empty list. */
  function MetaHeader(meta: seq<Metadata>, listable: bool, utf8: bool): seq<string> {
    if meta == [] then [] else [MetaHeaderName(listable) + ": " + MetaText(meta, utf8, 0)]
  }

  predicate CEntries(meta: seq<Metadata>) {
    forall i :: 0 <= i < |meta| ==> NulFree(meta[i].name) && NulFree(meta[i].value)
  }

  /** `name=value` in three appends. */
  method AppendPair(b: CBuffer, name: string, value: string)
    requires b.Valid() && NulFree(name) && NulFree(value)
    modifies b.Repr
    ensures b.Valid() && fresh(b.Repr - old(b.Repr))
    ensures b.text == old(b.text) + (name + "=" + value)
  {
    b.Append(name);
    b.Append("=");
    b.Append(value);
  }

  method AppendEntry(b: CBuffer, e: Metadata, utf8: bool)
    requires b.Valid() && NulFree(e.name) && NulFree(e.value)
    modifies b.Repr
    ensures b.Valid() && fresh(b.Repr - old(b.Repr))
    ensures b.text == old(b.text) + EntryText(e, utf8)
  {
    if utf8 {
      EncodedWithout(e.name, NUL);
      EncodedWithout(e.value, NUL);
      AppendPair(b, Encode(e.name), Encode(e.value));
    } else {
      AppendPair(b, e.name, e.value);
    }
  }

  method CheckEntry(e: Metadata, utf8: bool) returns (skip: bool)
    ensures skip <==> Rejected(e, utf8)
  {
    skip := false;
    if !utf8 {
      skip := MetaCharCheck(e.name);
      if !skip { skip := MetaCharCheck(e.value); }
    }
  }

  method AppendPiece(b: CBuffer, e: Metadata, utf8: bool, comma: bool)
    requires b.Valid() && NulFree(e.name) && NulFree(e.value)
    modifies b.Repr
    ensures b.Valid() && fresh(b.Repr - old(b.Repr))
    ensures b.text == old(b.text) + MetaPiece(e, utf8, comma)
  {
    var skip := CheckEntry(e, utf8);
    if skip {
      assert b.text == b.text + "";
      return;
    }
    if comma {
      b.Append(",");
    }
    AppendEntry(b, e, utf8);
    Assoc(old(b.text), if comma then "," else "", EntryText(e, utf8));
  }

  method AppendMetaText(b: CBuffer, meta: seq<Metadata>, utf8: bool)
    requires b.Valid() && CEntries(meta)
    modifies b.Repr
    ensures b.Valid() && fresh(b.Repr - old(b.Repr))
    ensures b.text == old(b.text) + MetaText(meta, utf8, 0)
  {
    var i := 0;
    while i < |meta|
      invariant 0 <= i <= |meta|
      invariant b.Valid() && fresh(b.Repr - old(b.Repr))
      invariant b.text + MetaText(meta, utf8, i) == old(b.text) + MetaText(meta, utf8, 0)
    {
      Assoc(b.text, MetaPiece(meta[i], utf8, i > 0), MetaText(meta, utf8, i + 1));
      AppendPiece(b, meta[i], utf8, i > 0);
      i := i + 1;
    }
    assert b.text + "" == b.text;
  }

  method MetaHeaderLine(meta: seq<Metadata>, listable: bool, utf8: bool) returns (header: string)
    requires CEntries(meta)
    ensures header == MetaHeaderName(listable) + ": " + MetaText(meta, utf8, 0)
  {
    hide MetaText;
    var b := new CBuffer();
    b.Append(MetaHeaderName(listable));
    b.Append(": ");
    AppendMetaText(b, meta, utf8);
    header := b.Text();
  }

  method SetMetadataHeader(meta: seq<Metadata>, listable: bool, utf8: bool, request: RestRequest)
    requires CEntries(meta)
    modifies request`headers
    ensures request.headers == old(request.headers) + MetaHeader(meta, listable, utf8)
  {
    if |meta| < 1 {
      assert request.headers == request.headers + [];
      return;
    }
    var header := MetaHeaderLine(meta, listable, utf8);
    request.AddHeader(header);
  }

  // ---------------------------------------------------------------- parsing

  function ParseEntry(entry: string): Metadata {
    var e := SkipSpaces(entry);
    var d := IndexOf(e, '=');
    if d == |e| then Metadata(e, "") else Metadata(e[..d], SkipSpaces(e[d + 1..]))
  }

  /** A name and a value come apart again at the first equals sign. */
  lemma ParsePair(name: string, value: string)
    requires '=' !in name && SkipSpaces(name) == name && SkipSpaces(value) == value
    ensures ParseEntry(name + "=" + value) == Metadata(name, value)
    ensures ParseEntry(" " + (name + "=" + value)) == Metadata(name, value)
  {
    var t := name + "=" + value;
    assert t[..|name|] == name && t[|name|] == '=' && t[|name| + 1..] == value;
    assert t[0] != ' ' by {
      if name != [] { assert SkipSpaces(name)[0] == t[0]; }
    }
    assert (" " + t)[1..] == t;
    IndexOfFirst(t, '=', |name|);
  }

  /** The end of the run of spaces at `from`. */
  method SkipCursor(s: string, from: nat) returns (i: nat)
    requires from <= |s|
    ensures i <= |s| && s[i..] == SkipSpaces(s[from..])
  {
    i := from;
    while i < |s| && s[i] == ' '
      invariant from <= i <= |s|
      invariant SkipSpaces(s[i..]) == SkipSpaces(s[from..])
    {
      assert s[i..][1..] == s[i + 1..];
      i := i + 1;
    }
  }

  method ParseMetaHeaderEntry(entry: string) returns (name: string, value: string)
    ensures Metadata(name, value) == ParseEntry(entry)
  {
    value := "";
    var i := SkipCursor(entry, 0);
    assert entry[0..] == entry;
    var rest := entry[i..];
    var delimiter := IndexOf(rest, '=');
    if delimiter == |rest| {
      name := rest;
    } else {
      name := rest[..delimiter];
      var valpos := SkipCursor(rest, delimiter + 1);
      value := rest[valpos..];
    }
  }

  /** `AtmosUtil_strlcpy_utf8`: decoding stops at a decoded NUL, the copy at the array's end. */
  function Stored(text: string, utf8: bool): string {
    Truncate(if utf8 then CStringOf(Decode(text)) else text, ATMOS_META_VALUE_MAX)
  }

  function AsStored(e: Metadata, utf8: bool): Metadata {
    Metadata(Stored(e.name, utf8), Stored(e.value, utf8))
  }

  /** What the parser of user metadata keeps of the comma-separated parts. */
  function UserEntries(parts: seq<string>, utf8: bool): seq<Metadata> {
    if parts == [] then []
    else
      var e := ParseEntry(parts[0]);
      if IsSystemName(e.name) then UserEntries(parts[1..], utf8)
      else [AsStored(e, utf8)] + UserEntries(parts[1..], utf8)
  }

  function ParseUserMeta(value: string, utf8: bool): seq<Metadata> {
    UserEntries(Split(value, ','), utf8)
  }

  /** The part fits the local buffers of the two parsers. */
  predicate BufferFits(part: string) {
    var e := ParseEntry(part);
    && |part| < 3 * ATMOS_META_NAME_MAX + 1 + 3 * ATMOS_META_VALUE_MAX
    && |e.name| < 3 * ATMOS_META_NAME_MAX && |e.value| < 3 * ATMOS_META_VALUE_MAX
  }

  /** It fits them, and the name its 255 bytes in the list. */
  predicate EntryFits(part: string, utf8: bool) {
    BufferFits(part) && |Stored(ParseEntry(part).name, utf8)| < ATMOS_META_NAME_MAX
  }

  predicate BuffersFit(value: string) {
    forall part :: part in Split(value, ',') ==> BufferFits(part)
  }

  predicate HeaderFits(value: string, utf8: bool) {
    forall part :: part in Split(value, ',') ==> EntryFits(part, utf8)
  }

  /** The parts from the cursor on; none once the cursor is NULL. */
  function PartsFrom(value: string, cursor: Option<nat>): seq<string>
    requires cursor.Some? ==> cursor.value <= |value|
  {
    if cursor.Some? then Split(value[cursor.value..], ',') else []
  }

  lemma PartsAt(value: string, from: nat)
    requires from <= |value|
    ensures var tail := value[from..];
            var comma := IndexOf(tail, ',');
            PartsFrom(value, Some(from)) ==
            [tail[..comma]] + PartsFrom(value, if comma == |tail| then None else Some(from + comma + 1))
  {
    var tail := value[from..];
    var comma := IndexOf(tail, ',');
    if comma == |tail| {
      assert tail[..comma] == tail;
    } else {
      assert tail[comma + 1..] == value[from + comma + 1..];
    }
  }

  /** One turn of every list parser: the part up to the next comma, and where to go on. */
  method NextEntry(value: string, from: nat) returns (name: string, text: string, next: Option<nat>, ghost part: string)
    requires from <= |value|
    ensures Metadata(name, text) == ParseEntry(part)
    ensures next.Some? ==> from < next.value <= |value|
    ensures PartsFrom(value, Some(from)) == [part] + PartsFrom(value, next)
  {
    PartsAt(value, from);
    var tail := value[from..];
    var comma := IndexOf(tail, ',');
    part := tail[..comma];
    next := if comma == |tail| then None else Some(from + comma + 1);
    name, text := ParseMetaHeaderEntry(tail[..comma]);
  }

  lemma UserEntriesStep(done: seq<Metadata>, part: string, rest: seq<string>, utf8: bool)
    ensures var e := ParseEntry(part);
            done + UserEntries([part] + rest, utf8) ==
            (if IsSystemName(e.name) then done else done + [AsStored(e, utf8)]) + UserEntries(rest, utf8)
  {
    assert ([part] + rest)[1..] == rest;
  }

  /** The array after `done` was written from index `count` on, one entry at a time. */
  ghost predicate Filled<T>(now: seq<T>, was: seq<T>, count: nat, done: seq<T>) {
    && |now| == |was| && count + |done| <= |now|
    && now[..count + |done|] == was[..count] + done
    && now[count + |done|..] == was[count + |done|..]
  }

  lemma FilledMore<T>(now: seq<T>, was: seq<T>, count: nat, done: seq<T>, e: T)
    requires Filled(now, was, count, done) && count + |done| < |now|
    ensures Filled(now[count + |done| := e], was, count, done + [e])
  {
    var k := count + |done|;
    assert now[k := e][..k + 1] == now[..k] + [e];
    assert now[k := e][k + 1..] == now[k..][1..] == was[k..][1..];
  }

  lemma FilledTwice<T>(now: seq<T>, mid: seq<T>, was: seq<T>, count: nat, a: seq<T>, b: seq<T>)
    requires Filled(mid, was, count, a) && Filled(now, mid, count + |a|, b)
    ensures Filled(now, was, count, a + b)
  {
    var k := count + |a|;
    assert mid[k + |b|..] == mid[k..][|b|..] == was[k..][|b|..] == was[k + |b|..];
  }

  /** `meta[(*meta_count)++] = e`. */
  method StoreEntry<T>(meta: array<T>, at: nat, e: T, ghost was: seq<T>, ghost count: nat, ghost done: seq<T>)
    requires Filled(meta[..], was, count, done) && at == count + |done| < meta.Length
    modifies meta
    ensures Filled(meta[..], was, count, done + [e])
  {
    FilledMore(meta[..], was, count, done, e);
    ghost var now := meta[..];
    meta[at] := e;
    assert meta[..] == now[at := e];
  }

  /** The list parsed so far is in the array; with the rest of the parts it is everything. */
  ghost predicate UserProgress(now: seq<Metadata>, was: seq<Metadata>, count: nat, at: nat, rest: seq<string>,
      utf8: bool, all: seq<Metadata>) {
    exists done :: at == count + |done| && Filled(now, was, count, done) && done + UserEntries(rest, utf8) == all
  }

  lemma UserProgressDone(now: seq<Metadata>, was: seq<Metadata>, count: nat, at: nat, utf8: bool, all: seq<Metadata>)
    requires UserProgress(now, was, count, at, [], utf8, all)
    ensures Filled(now, was, count, all) && at == count + |all|
  {
    var done :| at == count + |done| && Filled(now, was, count, done) && done + UserEntries([], utf8) == all;
    assert done + [] == done;
  }

  /** The second half of a turn: system names are skipped, other entries stored. */
  method KeepEntry(meta: array<Metadata>, at: nat, e: Metadata, utf8: bool,
                   ghost was: seq<Metadata>, ghost count: nat, ghost part: string, ghost rest: seq<string>,
                   ghost all: seq<Metadata>)
    returns (meta_count: nat)
    requires e == ParseEntry(part) && count + |all| <= meta.Length
    requires UserProgress(meta[..], was, count, at, [part] + rest, utf8, all)
    modifies meta
    ensures UserProgress(meta[..], was, count, meta_count, rest, utf8, all)
  {
    hide UserEntries, ParseEntry, AsStored;
    ghost var done :| at == count + |done| && Filled(meta[..], was, count, done)
        && done + UserEntries([part] + rest, utf8) == all;
    UserEntriesStep(done, part, rest, utf8);
    meta_count := at;
    var system := IsSystemMetaName(e.name);
    if !system {
      StoreEntry(meta, at, AsStored(e, utf8), was, count, done);
      meta_count := at + 1;
    }
  }

  method ParseMetaHeaderString(value: string, meta: array<Metadata>, count: nat, utf8: bool) returns (meta_count: nat)
    requires HeaderFits(value, utf8)
    requires count + |ParseUserMeta(value, utf8)| <= meta.Length
    modifies meta
    ensures meta_count == count + |ParseUserMeta(value, utf8)|
    ensures Filled(meta[..], old(meta[..]), count, ParseUserMeta(value, utf8))
  {
    ghost var was, all := meta[..], ParseUserMeta(value, utf8);
    var cursor := Some(0);
    meta_count := count;
    assert value[0..] == value && [] + all == all && Filled(was, was, count, []);
    while cursor.Some?
      invariant cursor.Some? ==> cursor.value <= |value|
      invariant UserProgress(meta[..], was, count, meta_count, PartsFrom(value, cursor), utf8, all)
      decreases if cursor.Some? then |value| + 1 - cursor.value else 0
    {
      var entry_name, entry_value, next, part := NextEntry(value, cursor.value);
      meta_count := KeepEntry(meta, meta_count, Metadata(entry_name, entry_value), utf8, was, count, part,
          PartsFrom(value, next), all);
      cursor := next;
    }
    UserProgressDone(meta[..], was, count, meta_count, utf8, all);
  }
}
