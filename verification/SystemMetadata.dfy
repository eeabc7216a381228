/** System metadata: the entries of `x-emc-meta` the user parser leaves out, and the record they
    fill. Dates and numbers are kept as the text that `strptime`, `strtol` and `strtoll` are given. */
module SystemMetadata {
  import opened CStrings
  import opened PercentEncoding
  import opened Rest
  import opened MetadataCodec
  import opened MetadataRoundTrip

  const ATMOS_PATH_MAX: nat := 1024
  const ATMOS_OID_LENGTH: nat := 65
  const ATMOS_CHECKSUM_MAX: nat := 128
  const ATMOS_TYPE_REGULAR := "regular"
  const ATMOS_TYPE_DIRECTORY := "directory"

  datatype Slot =
    | ATime | CTime | Gid | ITime | MTime | NLink | ObjectId | ObjName | PolicyName | Size | Type | Uid | WsChecksum

  /** Which field an entry name selects: the order of the original's comparisons. */
  function SlotOf(name: string): Option<Slot> {
    if name == "atime" then Some(ATime)
    else if name == "ctime" then Some(CTime)
    else if name == "gid" then Some(Gid)
    else if name == "itime" then Some(ITime)
    else if name == "mtime" then Some(MTime)
    else if name == "nlink" then Some(NLink)
    else if name == "objectid" then Some(ObjectId)
    else LaterSlotOf(name)
  }

  function LaterSlotOf(name: string): (slot: Option<Slot>) {
    if name == "objname" then Some(ObjName)
    else if name == "policyname" then Some(PolicyName)
    else if name == "size" then Some(Size)
    else if name == "type" then Some(Type)
    else if name == "uid" then Some(Uid)
    else if name == "x-emc-wschecksum" then Some(WsChecksum)
    else None
  }

  /** Each name of the table selects its own field, and no other name does. */
  lemma SlotNames(name: string)
    ensures SlotOf(name) == Some(ATime) <==> name == "atime"
    ensures SlotOf(name) == Some(CTime) <==> name == "ctime"
    ensures SlotOf(name) == Some(Gid) <==> name == "gid"
    ensures SlotOf(name) == Some(ITime) <==> name == "itime"
    ensures SlotOf(name) == Some(MTime) <==> name == "mtime"
    ensures SlotOf(name) == Some(NLink) <==> name == "nlink"
    ensures SlotOf(name) == Some(ObjectId) <==> name == "objectid"
  {
  }

  lemma LaterSlotNames(name: string)
    ensures SlotOf(name) == Some(ObjName) <==> name == "objname"
    ensures SlotOf(name) == Some(PolicyName) <==> name == "policyname"
    ensures SlotOf(name) == Some(Size) <==> name == "size"
    ensures SlotOf(name) == Some(Type) <==> name == "type"
    ensures SlotOf(name) == Some(Uid) <==> name == "uid"
    ensures SlotOf(name) == Some(WsChecksum) <==> name == "x-emc-wschecksum"
  {
  }

  /** What a field takes from a value; a type that is neither of the two known ones is ignored. */
  function Taken(slot: Slot, value: string, utf8: bool): Option<string> {
    match slot
    case Gid | PolicyName | Uid => Some(Truncate(value, ATMOS_UID_MAX))
    case ObjectId => Some(Truncate(value, ATMOS_OID_LENGTH))
    case WsChecksum => Some(Truncate(value, ATMOS_CHECKSUM_MAX))
    case ObjName => Some(Truncate(if utf8 then CStringOf(Decode(value)) else value, ATMOS_PATH_MAX))
    case Type => if value == ATMOS_TYPE_DIRECTORY || value == ATMOS_TYPE_REGULAR then Some(value) else None
    case _ => Some(value)
  }

  /** The field `slot` after `value` was given to the field `target`. */
  function AfterValue(slot: Slot, target: Option<Slot>, value: string, utf8: bool, before: string): string {
    if target == Some(slot) && Taken(slot, value, utf8).Some? then Taken(slot, value, utf8).value else before
  }

  function AfterEntry(slot: Slot, e: Metadata, utf8: bool, before: string): string {
    AfterValue(slot, SlotOf(e.name), e.value, utf8, before)
  }

  function AfterParts(slot: Slot, parts: seq<string>, utf8: bool, before: string): string {
    if parts == [] then before
    else AfterParts(slot, parts[1..], utf8, AfterEntry(slot, ParseEntry(parts[0]), utf8, before))
  }

  class AtmosSystemMetadata {
    var objectId: string
    var objname: string
    var atime: string
    var ctime: string
    var itime: string
    var mtime: string
    var size: string
    var nlink: string
    var kind: string
    var uid: string
    var gid: string
    var policyname: string
    var wschecksum: string

    function At(slot: Slot): string
      reads this
    {
      match slot
      case ATime => atime
      case CTime => ctime
      case Gid => gid
      case ITime => itime
      case MTime => mtime
      case NLink => nlink
      case ObjectId => objectId
      case ObjName => objname
      case PolicyName => policyname
      case Size => size
      case Type => kind
      case Uid => uid
      case WsChecksum => wschecksum
    }

    /** `AtmosUtil_set_system_meta_entry`: one field at most is assigned. */
    method SetEntry(name: string, value: string, utf8: bool)
      modifies this
      ensures forall slot :: At(slot) == AfterEntry(slot, Metadata(name, value), utf8, old(At(slot)))
      ensures atime == (if name == "atime" then value else old(atime))
      ensures ctime == (if name == "ctime" then value else old(ctime))
      ensures gid == (if name == "gid" then Truncate(value, 255) else old(gid))
      ensures itime == (if name == "itime" then value else old(itime))
      ensures mtime == (if name == "mtime" then value else old(mtime))
      ensures nlink == (if name == "nlink" then value else old(nlink))
      ensures objectId == (if name == "objectid" then Truncate(value, 65) else old(objectId))
      ensures objname == (if name == "objname" then Truncate(if utf8 then CStringOf(Decode(value)) else value, 1024)
          else old(objname))
      ensures policyname == (if name == "policyname" then Truncate(value, 255) else old(policyname))
      ensures size == (if name == "size" then value else old(size))
      ensures kind == (if name == "type" && (value == "directory" || value == "regular") then value else old(kind))
      ensures uid == (if name == "uid" then Truncate(value, 255) else old(uid))
      ensures wschecksum == (if name == "x-emc-wschecksum" then Truncate(value, 128) else old(wschecksum))
    {
      if name == "atime" { atime := value; }
      else if name == "ctime" { ctime := value; }
      else if name == "gid" { gid := Truncate(value, ATMOS_UID_MAX); }
      else if name == "itime" { itime := value; }
      else if name == "mtime" { mtime := value; }
      else if name == "nlink" { nlink := value; }
      else if name == "objectid" { objectId := Truncate(value, ATMOS_OID_LENGTH); }
      else { SetLaterEntry(name, value, utf8); }
    }

    /** The second half of the chain of comparisons. */
    method SetLaterEntry(name: string, value: string, utf8: bool)
      modifies this
      ensures forall slot :: At(slot) == AfterValue(slot, LaterSlotOf(name), value, utf8, old(At(slot)))
      ensures atime == old(atime) && ctime == old(ctime) && gid == old(gid) && itime == old(itime)
      ensures mtime == old(mtime) && nlink == old(nlink) && objectId == old(objectId)
      ensures objname == (if name == "objname" then Truncate(if utf8 then CStringOf(Decode(value)) else value, 1024)
          else old(objname))
      ensures policyname == (if name == "policyname" then Truncate(value, 255) else old(policyname))
      ensures size == (if name == "size" then value else old(size))
      ensures kind == (if name == "type" && (value == "directory" || value == "regular") then value else old(kind))
      ensures uid == (if name == "uid" then Truncate(value, 255) else old(uid))
      ensures wschecksum == (if name == "x-emc-wschecksum" then Truncate(value, 128) else old(wschecksum))
    {
      hide Decode, CStringOf;
      if name == "objname" { objname := Truncate(if utf8 then CStringOf(Decode(value)) else value, ATMOS_PATH_MAX); }
      else if name == "policyname" { policyname := Truncate(value, ATMOS_UID_MAX); }
      else if name == "size" { size := value; }
      else if name == "type" { SetType(value); }
      else if name == "uid" { uid := Truncate(value, ATMOS_UID_MAX); }
      else if name == "x-emc-wschecksum" { wschecksum := Truncate(value, ATMOS_CHECKSUM_MAX); }
    }

    method SetType(value: string)
      modifies this`kind
      ensures kind == if Taken(Type, value, false).Some? then value else old(kind)
    {
      if value == ATMOS_TYPE_DIRECTORY { kind := ATMOS_TYPE_DIRECTORY; }
      else if value == ATMOS_TYPE_REGULAR { kind := ATMOS_TYPE_REGULAR; }
    }

    method ParseSystemMeta(value: string, utf8: bool)
      requires BuffersFit(value)
      modifies this
      ensures forall slot :: At(slot) == AfterParts(slot, Split(value, ','), utf8, old(At(slot)))
    {
      var cursor := Some(0);
      assert value[0..] == value;
      while cursor.Some?
        invariant cursor.Some? ==> cursor.value <= |value|
        invariant forall slot ::
          AfterParts(slot, PartsFrom(value, cursor), utf8, At(slot))
              == AfterParts(slot, Split(value, ','), utf8, old(At(slot)))
        decreases if cursor.Some? then |value| + 1 - cursor.value else 0
      {
        var name, text, next, part := NextEntry(value, cursor.value);
        ghost var rest := PartsFrom(value, next);
        assert ([part] + rest)[1..] == rest;
        cursor := next;
        SetEntry(name, text, utf8);
      }
    }

    /** `AtmosUtil_parse_system_meta_header`. */
    method ParseSystemMetaHeader(headers: seq<string>)
      requires HeaderValue(headers, ATMOS_HEADER_META).Some? ==>
          BuffersFit(HeaderValue(headers, ATMOS_HEADER_META).value)
      modifies this
      ensures forall slot :: At(slot) ==
                if HeaderValue(headers, ATMOS_HEADER_META).None? then old(At(slot))
                else AfterParts(slot, Split(HeaderValue(headers, ATMOS_HEADER_META).value, ','),
                    Utf8Response(headers), old(At(slot)))
    {
      hide HeaderValue, AfterParts, BuffersFit;
      var utf8 := HeaderValue(headers, ATMOS_HEADER_UTF8) == Some("true");
      var value := HeaderValue(headers, ATMOS_HEADER_META);
      if value.Some? {
        ParseSystemMeta(value.value, utf8);
      }
    }
  }

  // ---------------------------------------------------------------- the two parsers share the entries

  /** The name table and the chain of comparisons accept the same names. */
  lemma TableMatchesChain(name: string)
    ensures IsSystemName(name) <==> SlotOf(name).Some?
  {
    var t := ATMOS_SYSTEM_META_NAMES;
    if SlotOf(name).Some? {
      assert name == t[0] || name == t[1] || name == t[2] || name == t[3] || name == t[4] || name == t[5]
          || name == t[6]
        || name == t[7] || name == t[8] || name == t[9] || name == t[10] || name == t[11] || name == t[12];
    }
  }

  /** The parts only the system parser reacts to. */
  function SystemParts(parts: seq<string>): seq<string> {
    if parts == [] then []
    else if SlotOf(ParseEntry(parts[0]).name).Some? then [parts[0]] + SystemParts(parts[1..])
    else SystemParts(parts[1..])
  }

  /** The parts only the user parser reacts to. */
  function UserParts(parts: seq<string>): seq<string> {
    if parts == [] then []
    else if SlotOf(ParseEntry(parts[0]).name).Some? then UserParts(parts[1..])
    else [parts[0]] + UserParts(parts[1..])
  }

  /** Each part of the header is consumed by exactly one of the two parsers. */
  lemma {:induction false} PartsArePartitioned(parts: seq<string>)
    ensures multiset(UserParts(parts)) + multiset(SystemParts(parts)) == multiset(parts)
    ensures forall part :: part in UserParts(parts) ==> !IsSystemName(ParseEntry(part).name)
    ensures forall part :: part in SystemParts(parts) ==> IsSystemName(ParseEntry(part).name)
  {
    if parts != [] {
      PartsArePartitioned(parts[1..]);
      TableMatchesChain(ParseEntry(parts[0]).name);
      assert parts == [parts[0]] + parts[1..];
    }
  }

  function StoredAll(parts: seq<string>, utf8: bool): seq<Metadata> {
    if parts == [] then [] else [AsStored(ParseEntry(parts[0]), utf8)] + StoredAll(parts[1..], utf8)
  }

  /** The user list is made of the user parts, one entry each and in order, and of nothing else. */
  lemma {:induction false} UserParserReadsUserParts(parts: seq<string>, utf8: bool)
    ensures UserEntries(parts, utf8) == StoredAll(UserParts(parts), utf8)
  {
    if parts != [] {
      UserParserReadsUserParts(parts[1..], utf8);
      TableMatchesChain(ParseEntry(parts[0]).name);
      assert SlotOf(ParseEntry(parts[0]).name).None? ==> UserParts(parts)[1..] == UserParts(parts[1..]);
    }
  }

  /** The record is made of the system parts alone. */
  lemma {:induction false} SystemParserReadsSystemParts(parts: seq<string>, utf8: bool, slot: Slot, before: string)
    ensures AfterParts(slot, parts, utf8, before) == AfterParts(slot, SystemParts(parts), utf8, before)
  {
    if parts != [] {
      var e, rest := ParseEntry(parts[0]), parts[1..];
      SystemParserReadsSystemParts(rest, utf8, slot, AfterEntry(slot, e, utf8, before));
      if SlotOf(e.name).Some? {
        assert SystemParts(parts)[0] == parts[0] && SystemParts(parts)[1..] == SystemParts(rest);
      }
    }
  }

  predicate Assigns(slot: Slot, part: string, utf8: bool) {
    var e := ParseEntry(part);
    SlotOf(e.name) == Some(slot) && Taken(slot, e.value, utf8).Some?
  }

  lemma {:induction false} UnassignedSlotKept(slot: Slot, parts: seq<string>, utf8: bool, before: string)
    requires forall part :: part in parts ==> !Assigns(slot, part, utf8)
    ensures AfterParts(slot, parts, utf8, before) == before
  {
    if parts != [] {
      assert parts[0] in parts;
      UnassignedSlotKept(slot, parts[1..], utf8, before);
    }
  }

  /** Of the parts that assign a field the last one wins. */
  lemma {:induction false} LastAssignmentWins(slot: Slot, parts: seq<string>, k: nat, utf8: bool, before: string)
    requires k < |parts| && Assigns(slot, parts[k], utf8)
    requires forall part :: part in parts[k + 1..] ==> !Assigns(slot, part, utf8)
    ensures Some(AfterParts(slot, parts, utf8, before)) == Taken(slot, ParseEntry(parts[k]).value, utf8)
  {
    hide ParseEntry, SlotOf;
    var after := AfterEntry(slot, ParseEntry(parts[0]), utf8, before);
    if k == 0 {
      UnassignedSlotKept(slot, parts[1..], utf8, after);
    } else {
      assert parts[1..][k..] == parts[k + 1..];
      LastAssignmentWins(slot, parts[1..], k - 1, utf8, after);
    }
  }
}
