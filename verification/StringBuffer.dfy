/** The growable buffer every printer uses: a `char *` that `AtmosUtil_cstring_append` reallocates
    together with the `size_t` that remembers how much is allocated. */
module StringBuffer {
  import opened CStrings
  import opened PercentEncoding

  const SLACK := 256

  class CBuffer {
    ghost var text: string       // what the buffer holds, as a C string
    ghost var reallocs: nat      // how often it was reallocated
    ghost var Repr: set<object>

    var buf: array?<char>
    var bufsz: nat

    ghost predicate Valid()
      reads this, Repr
      ensures Valid() ==> this in Repr
    {
      && this in Repr
      && NulFree(text)
      && (buf == null ==> bufsz == 0 && text == "" && reallocs == 0)
      && (buf != null ==>
            && buf in Repr && buf.Length == bufsz
            && |text| + 1 <= bufsz && buf[..|text| + 1] == text + [NUL])
      && Bounded()
    }

    /** Growth is tied to the text: one reallocation for each 256 bytes, and one more. */
    ghost predicate Bounded()
      reads this
    {
      && SLACK * reallocs <= bufsz <= 2 * |text| + SLACK
      && SLACK * reallocs <= |text| + SLACK
    }

    constructor ()
      ensures Valid() && fresh(Repr)
      ensures text == "" && buf == null
    {
      buf, bufsz := null, 0;
      text, reallocs, Repr := "", 0, {this};
    }

    /** What `strlen` and every later reader of the buffer see. */
    method Text() returns (s: string)
      requires Valid()
      ensures s == text
    {
      if buf == null { return ""; }
      assert buf[|text|] == (text + [NUL])[|text|] == NUL;
      assert forall i :: 0 <= i < |text| ==> buf[i] == buf[..|text| + 1][i] == text[i];
      var n := Strlen(buf);
      assert n == |text| by {
        IndexOfFirst(buf[..], NUL, |text|) by {
          assert buf[..][..|text|] == text;
        }
      }
      s := buf[..n];
      assert s == text;
    }

    method Realloc(newsize: nat)
      requires Valid()
      requires newsize >= bufsz && newsize > 0
      modifies Repr
      ensures this in Repr && fresh(Repr - old(Repr))
      ensures buf != null && buf in Repr && buf.Length == bufsz == newsize
      ensures text == old(text) && reallocs == old(reallocs) + 1
      ensures buf[..|text|] == text
    {
      var bigger := new char[newsize];
      if buf != null {
        forall i | 0 <= i < bufsz {
          bigger[i] := buf[i];
        }
        assert forall i :: 0 <= i < |text| ==> bigger[i] == buf[..|text| + 1][i] == text[i];
      }
      assert bigger[..|text|] == text;
      buf, bufsz := bigger, newsize;
      reallocs := reallocs + 1;
      Repr := Repr + {bigger};
    }

    /** `strcpy(buf + bufpos, str)`. */
    method CopyIn(bufpos: nat, str: string)
      requires buf != null && bufpos + |str| < buf.Length
      modifies buf
      ensures buf[..bufpos] == old(buf[..bufpos])
      ensures buf[..bufpos + |str| + 1] == old(buf[..bufpos]) + str + [NUL]
    {
      forall i | 0 <= i < |str| {
        buf[bufpos + i] := str[i];
      }
      buf[bufpos + |str|] := NUL;
    }

    method Append(str: string)
      requires Valid() && NulFree(str)
      modifies Repr
      ensures Valid() && fresh(Repr - old(Repr))
      ensures text == old(text) + str && buf != null
      ensures reallocs <= |text| / SLACK + 1
      ensures |text| + 1 <= bufsz <= 2 * |text| + SLACK
    {
      var was := Text();
      var bufpos, strsz := |was|, |str|;
      if buf == null || bufpos + strsz + 1 > bufsz {
        Realloc(bufsz + strsz + SLACK);
      } else {
        assert buf[..bufpos] == buf[..bufpos + 1][..bufpos] == was;
      }
      CopyIn(bufpos, str);
      text := text + str;
    }

    method AppendUtf8(str: string)
      requires Valid()
      modifies Repr
      ensures Valid() && fresh(Repr - old(Repr))
      ensures text == old(text) + Encode(str) && buf != null
    {
      hide Encode;
      EncodedWithout(str, NUL);
      Append(Encode(str));
    }
  }

  function Concat(strs: seq<string>): string {
    if strs == [] then "" else strs[0] + Concat(strs[1..])
  }

  /** Any run of appends on a fresh buffer: the buffer is the concatenation, and what the run cost
      is bounded by the length of that concatenation alone. */
  method AppendAll(strs: seq<string>) returns (b: CBuffer)
    requires forall s :: s in strs ==> NulFree(s)
    ensures b.Valid() && fresh(b.Repr)
    ensures b.text == Concat(strs)
    ensures b.reallocs <= |b.text| / SLACK + 1
    ensures b.bufsz <= 2 * |b.text| + SLACK
  {
    b := new CBuffer();
    var i := 0;
    while i < |strs|
      invariant 0 <= i <= |strs|
      invariant b.Valid() && fresh(b.Repr)
      invariant b.text + Concat(strs[i..]) == Concat(strs)
    {
      assert strs[i] in strs;
      b.Append(strs[i]);
      assert strs[i..][1..] == strs[i + 1..];
      i := i + 1;
    }
    assert strs[i..] == [];
  }
}
