/** The checksum object a write request carries: `AtmosChecksum_*`. The hash algorithms belong to
    OpenSSL; here one is a triple of functions with the streaming law and a fixed digest length. */
module Checksum {
  import opened CStrings
  import opened Rest
  import PercentEncoding

  newtype byte = x: int | 0 <= x < 256

  datatype Alg = Sha0 | Sha1 | Md5
  datatype Mode = WsChecksum | GenerateChecksum

  const ATMOS_HEADER_CONTENT_CHECKSUM := "x-emc-content-checksum"
  const READ_BUFFER: nat := 65536

  function AlgName(alg: Alg): (s: string)
    ensures 1 <= |s| <= 4 && Lower(s) == s && '/' !in s && NulFree(s)
  {
    match alg
    case Sha0 => "sha0"
    case Sha1 => "sha1"
    case Md5 => "md5"
  }

  function DigestLength(alg: Alg): nat { if alg == Md5 then 16 else 20 }

  /** `X_Init`, `X_Update` and `X_Final` on the context type of one algorithm; `finishes` says where
      `X_Final` succeeds. */
  datatype Hash<!C> = Hash(init: C, update: (C, seq<byte>) -> C, final: C -> seq<byte>, finishes: C -> bool)

  ghost predicate Lawful<C(!new)>(h: Hash<C>, alg: Alg) {
    && (forall c :: h.update(c, []) == c)
    && (forall c, a, b :: h.update(h.update(c, a), b) == h.update(c, a + b))
    && (forall c :: |h.final(c)| == DigestLength(alg))
  }

  /** The digest of `data` in one call. */
  function Digest<C>(h: Hash<C>, data: seq<byte>): seq<byte> { h.final(h.update(h.init, data)) }

  predicate Finishes<C>(h: Hash<C>, data: seq<byte>) { h.finishes(h.update(h.init, data)) }

  // ---------------------------------------------------------------- hexadecimal

  function NibbleToHexChar(nibble: nat): (c: char)
    requires nibble < 16
    ensures '0' <= c <= '9' || 'a' <= c <= 'f'
  {
    if nibble < 10 then ('0' as int + nibble) as char else ('a' as int + nibble - 10) as char
  }

  function Hex(bytes: seq<byte>): (s: string)
    ensures |s| == 2 * |bytes|
    ensures forall i :: 0 <= i < |s| ==> '0' <= s[i] <= '9' || 'a' <= s[i] <= 'f'
  {
    if bytes == [] then ""
    else [NibbleToHexChar(bytes[0] as int / 16), NibbleToHexChar(bytes[0] as int % 16)] + Hex(bytes[1..])
  }

  lemma NibblesDiffer(a: nat, b: nat)
    requires a < 16 && b < 16 && NibbleToHexChar(a) == NibbleToHexChar(b)
    ensures a == b
  {
  }

  lemma {:induction false} HexInjective(a: seq<byte>, b: seq<byte>)
    ensures Hex(a) == Hex(b) <==> a == b
  {
    if Hex(a) == Hex(b) && a != [] {
      assert |b| == |a|;
      assert Hex(a)[0] == Hex(b)[0] && Hex(a)[1] == Hex(b)[1];
      assert Hex(a)[2..] == Hex(a[1..]) && Hex(b)[2..] == Hex(b[1..]);
      NibblesDiffer(a[0] as int / 16, b[0] as int / 16);
      NibblesDiffer(a[0] as int % 16, b[0] as int % 16);
      HexInjective(a[1..], b[1..]);
      assert a == [a[0]] + a[1..] && b == [b[0]] + b[1..];
    }
  }

  lemma {:induction false} HexAt(bytes: seq<byte>, i: nat)
    requires i < |bytes|
    ensures Hex(bytes)[2 * i] == NibbleToHexChar(bytes[i] as int / 16)
    ensures Hex(bytes)[2 * i + 1] == NibbleToHexChar(bytes[i] as int % 16)
  {
    hide NibbleToHexChar;
    if i > 0 {
      assert Hex(bytes)[2..] == Hex(bytes[1..]);
      HexAt(bytes[1..], i - 1);
      assert Hex(bytes)[2 * i] == Hex(bytes)[2..][2 * (i - 1)]
          && Hex(bytes)[2 * i + 1] == Hex(bytes)[2..][2 * (i - 1) + 1];
    }
  }

  /** What any reader of hexadecimal makes of `text`: for each byte the high half and then the low half. */
  predicate ReadsAs(text: string, bytes: seq<byte>) {
    && |text| == 2 * |bytes|
    && forall i :: 0 <= i < |bytes| ==>
         && PercentEncoding.HexValue(text[2 * i]) == Some(bytes[i] as int / 16)
         && PercentEncoding.HexValue(text[2 * i + 1]) == Some(bytes[i] as int % 16)
  }

  lemma NibbleReadsBack(nibble: nat)
    requires nibble < 16
    ensures PercentEncoding.HexValue(NibbleToHexChar(nibble)) == Some(nibble)
    ensures NibbleToHexChar(nibble) == "0123456789abcdef"[nibble]
  {
  }

  /** The digits stand for the values of the bytes. */
  lemma HexReadsBack(bytes: seq<byte>)
    ensures ReadsAs(Hex(bytes), bytes)
  {
    hide NibbleToHexChar, Hex, PercentEncoding.HexValue;
    forall i | 0 <= i < |bytes|
      ensures PercentEncoding.HexValue(Hex(bytes)[2 * i]) == Some(bytes[i] as int / 16)
      ensures PercentEncoding.HexValue(Hex(bytes)[2 * i + 1]) == Some(bytes[i] as int % 16)
    {
      HexAt(bytes, i);
      NibbleReadsBack(bytes[i] as int / 16);
      NibbleReadsBack(bytes[i] as int % 16);
    }
  }

  /** The names of the algorithms, and how long their digests are. */
  lemma Algorithms()
    ensures AlgName(Sha0) == "sha0" && AlgName(Sha1) == "sha1" && AlgName(Md5) == "md5"
    ensures DigestLength(Sha0) == 20 && DigestLength(Sha1) == 20 && DigestLength(Md5) == 16
  {
  }

  /** Two characters for each byte, written by index, and the NUL behind them. */
  method ToHexString(bytes: seq<byte>, buffer: array<char>)
    requires buffer.Length > 2 * |bytes|
    modifies buffer
    ensures buffer[..2 * |bytes| + 1] == Hex(bytes) + [NUL]
    ensures ReadsAs(buffer[..2 * |bytes|], bytes)
  {
    var i := 0;
    while i < |bytes|
      invariant 0 <= i <= |bytes|
      invariant forall k :: 0 <= k < 2 * i ==> buffer[k] == Hex(bytes)[k]
    {
      HexAt(bytes, i);
      buffer[i * 2] := NibbleToHexChar(bytes[i] as int / 16);
      buffer[i * 2 + 1] := NibbleToHexChar(bytes[i] as int % 16);
      i := i + 1;
    }
    buffer[i * 2] := NUL;
    assert buffer[..2 * |bytes|] == Hex(bytes);
    HexReadsBack(bytes);
  }

  // ---------------------------------------------------------------- files

  /** At most `count` bytes of a file from a position on. */
  function AheadOf(data: seq<byte>, pos: nat, count: nat): seq<byte> {
    if pos >= |data| then [] else if pos + count <= |data| then data[pos..pos + count] else data[pos..]
  }

  /** A `FILE *` open for reading. Some streams cannot tell or set their position. */
  class CFile {
    const data: seq<byte>
    const canTell: bool
    const canSeek: bool
    var pos: nat

    ghost predicate Valid()
      reads this
    {
      pos <= |data|
    }

    constructor (data: seq<byte>, canTell: bool, canSeek: bool)
      ensures Valid() && this.data == data && pos == 0 && this.canTell == canTell && this.canSeek == canSeek
    {
      this.data, this.canTell, this.canSeek, pos := data, canTell, canSeek, 0;
    }

    /** What at most `count` bytes from the current position are. */
    function Ahead(count: nat): (r: seq<byte>)
      requires Valid()
      reads this
      ensures |r| == if count <= |data| - pos then count else |data| - pos
    {
      AheadOf(data, pos, count)
    }

    /** `fread` may come back with less than was asked for, but with nothing only at the end. */
    method Fread(count: nat) returns (chunk: seq<byte>)
      requires Valid()
      modifies this`pos
      ensures Valid() && pos == old(pos) + |chunk| && chunk == data[old(pos)..pos]
      ensures |chunk| <= count
      ensures chunk == [] <==> count == 0 || old(pos) == |data|
    {
      var most := if count <= |data| - pos then count else |data| - pos;
      var n: nat :| n <= most && (n == 0 <==> most == 0) by {
        assert most <= most && (most == 0 <==> most == 0);
      }
      chunk := data[pos..pos + n];
      pos := pos + n;
    }
  }

  // ---------------------------------------------------------------- the checksum object

  /** The `x-emc-wschecksum` value for an object that holds `data`. */
  function StateText<C>(h: Hash<C>, alg: Alg, data: seq<byte>): string {
    AlgName(alg) + "/" + Decimal(|data|) + "/" + Hex(Digest(h, data))
  }

  lemma Pieces(before: seq<byte>, data: seq<byte>, a: nat, b: nat, c: nat)
    requires a <= b <= c <= |data|
    ensures before + data[a..b] + data[b..c] == before + data[a..c]
  {
  }

  class AtmosChecksum<C(!new)> {
    const mode: Mode
    const alg: Alg
    const hash: Hash<C>
    var offset: nat
    var internal_state: C
    ghost var absorbed: seq<byte>

    /** Context and offset are those of the bytes absorbed so far, however they were cut up. */
    ghost predicate Valid()
      reads this
    {
      && Lawful(hash, alg)
      && internal_state == hash.update(hash.init, absorbed)
      && offset == |absorbed|
    }

    constructor (mode: Mode, alg: Alg, hash: Hash<C>)
      requires Lawful(hash, alg)
      ensures Valid() && absorbed == [] && this.mode == mode && this.alg == alg && this.hash == hash
    {
      this.mode, this.alg, this.hash := mode, alg, hash;
      offset, internal_state, absorbed := 0, hash.init, [];
    }

    method Update(data: seq<byte>)
      requires Valid()
      modifies this
      ensures Valid() && absorbed == old(absorbed) + data
    {
      internal_state := hash.update(internal_state, data);
      offset := offset + |data|;
      absorbed := absorbed + data;
    }

    /** One `fread` of at most a buffer, and its bytes absorbed. */
    method ReadPiece(f: CFile, left: nat) returns (c: nat)
      requires Valid() && f.Valid()
      modifies this, f`pos
      ensures Valid() && f.Valid()
      ensures c <= left && f.pos == old(f.pos) + c
      ensures absorbed == old(absorbed) + f.data[old(f.pos)..f.pos]
      ensures c == 0 <==> left == 0 || old(f.pos) == |f.data|
    {
      var chunk;
      if READ_BUFFER > left {
        chunk := f.Fread(left);
      } else {
        chunk := f.Fread(READ_BUFFER);
      }
      c := |chunk|;
      if c == 0 {
        assert absorbed == absorbed + f.data[old(f.pos)..f.pos];
      } else {
        Update(chunk);
      }
    }

    /** Reads the file in pieces until `count` bytes were read or the file ends. Whatever `fread`
        hands out in one call, the next `count` bytes are absorbed, or as many as there are. */
    method UpdateFile(f: CFile, count: nat)
      requires Valid() && f.Valid()
      modifies this, f`pos
      ensures Valid() && f.Valid()
      ensures absorbed == old(absorbed) + old(f.Ahead(count))
      ensures f.pos == old(f.pos) + |old(f.Ahead(count))|
    {
      var read := 0;
      ghost var start, before := f.pos, absorbed;
      assert absorbed == before + f.data[start..f.pos];
      while true
        invariant Valid() && f.Valid()
        invariant read <= count && f.pos == start + read
        invariant absorbed == before + f.data[start..f.pos]
        decreases count - read
      {
        ghost var mid := f.pos;
        var c := ReadPiece(f, count - read);
        Pieces(before, f.data, start, mid, f.pos);
        read := read + c;
        if c == 0 || read >= count { break; }
      }
    }

    /** The digest of what was absorbed so far; the running context is copied, not finished. */
    method GetValue() returns (value: Option<string>)
      requires Valid()
      ensures value == if Finishes(hash, absorbed) then Some(Hex(Digest(hash, absorbed))) else None
      ensures value.Some? ==> ReadsAs(value.value, Digest(hash, absorbed))
    {
      var context := internal_state;
      if !hash.finishes(context) { return None; }
      var digest := hash.final(context);
      var buffer := new char[2 * |digest| + 1];
      ToHexString(digest, buffer);
      assert buffer[..2 * |digest|] == buffer[..2 * |digest| + 1][..2 * |digest|];
      value := Some(buffer[..2 * |digest|]);
    }

    /** The buffer is the two lengths and 7 bytes, which is never too little. */
    method GetState() returns (state: Option<string>)
      requires Valid()
      ensures state == if Finishes(hash, absorbed) then Some(StateText(hash, alg, absorbed)) else None
    {
      var value := GetValue();
      if value.None? { return None; }
      var offsetbuf := Decimal(offset);
      var outsz := |value.value| + |offsetbuf| + 7;
      state := Some(Truncate(AlgName(alg) + "/" + offsetbuf + "/" + value.value, outsz));
    }

    /** `AtmosChecksum_verify_response`. The guard of the original negates the mode before it
        compares; with two modes that is the intended test. */
    method VerifyResponse(headers: seq<string>) returns (ok: bool)
      requires Valid()
      ensures mode == WsChecksum ==> ok
      ensures mode == GenerateChecksum ==>
                (ok <==> var value := HeaderValue(headers, ATMOS_HEADER_CONTENT_CHECKSUM);
                         && Finishes(hash, absorbed) && value.Some?
                         && Lower(value.value) == AlgName(alg) + "/" + Hex(Digest(hash, absorbed)))
    {
      var code := if mode == GenerateChecksum then 1 else 0;
      var negated := if code == 0 then 1 else 0;
      if negated == 1 { return true; }
      var rvalue := HeaderValue(headers, ATMOS_HEADER_CONTENT_CHECKSUM);
      if rvalue.None? { return false; }
      var lvalue := GetValue();
      if lvalue.None? { return false; }
      var buffer := Truncate(AlgName(alg) + "/" + lvalue.value, ATMOS_SIMPLE_HEADER_MAX);
      ok := buffer == Lower(rvalue.value);
    }
  }

  /** The two forms of a state text determine each other: algorithm, length and digest can be read
      back from it. */
  lemma StateTextDetermines<C, D>(h: Hash<C>, a: seq<byte>, g: Hash<D>, b: seq<byte>, alg: Alg, alg': Alg)
    requires StateText(h, alg, a) == StateText(g, alg', b)
    ensures alg == alg' && |a| == |b| && Digest(h, a) == Digest(g, b)
  {
    StateTextSplits(h, alg, a);
    StateTextSplits(g, alg', b);
    var p, q := Split(StateText(h, alg, a), '/'), Split(StateText(g, alg', b), '/');
    assert p[0] == q[0] && p[1] == q[1] && p[2] == q[2];
    assert AlgName(alg)[|AlgName(alg)| - 1] == AlgName(alg')[|AlgName(alg')| - 1];
    ParsePrintedDecimal(|a|);
    ParsePrintedDecimal(|b|);
    HexInjective(Digest(h, a), Digest(g, b));
  }

  lemma StateTextSplits<C>(h: Hash<C>, alg: Alg, a: seq<byte>)
    ensures Split(StateText(h, alg, a), '/') == [AlgName(alg), Decimal(|a|), Hex(Digest(h, a))]
  {
    assert "/" == ['/'];
    SplitThree(AlgName(alg), Decimal(|a|), Hex(Digest(h, a)), '/');
  }

  /** The server's answer is accepted exactly when it names the same digest, in any letter case. */
  lemma AnswerAccepted(answer: string, alg: Alg, theirs: seq<byte>, ours: seq<byte>)
    requires Lower(answer) == AlgName(alg) + "/" + Hex(theirs)
    ensures Lower(answer) == AlgName(alg) + "/" + Hex(ours) <==> theirs == ours
  {
    HexInjective(theirs, ours);
    var p := AlgName(alg) + "/";
    assert (p + Hex(theirs))[|p|..] == Hex(theirs) && (p + Hex(ours))[|p|..] == Hex(ours);
  }
}
