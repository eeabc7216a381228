/** Shareable URLs: `AtmosClient_get_shareable_url_internal` signs a short text and puts everything
    that is in it into the URL, so that the server can put it together again. */
module ShareableUrl {
  import opened CStrings
  import opened PercentEncoding
  import opened StringBuffer
  import opened Canonical

  // ---------------------------------------------------------------- the text that is signed

  function HashTail(uid: string, expires_str: string, disposition: Option<string>): string {
    uid + "\n" + expires_str + (if disposition.Some? then "\n" + disposition.value else "")
  }

  function HashString(uri: string, uid: string, expires: int, disposition: Option<string>): string {
    "GET\n" + Lower(uri) + "\n" + HashTail(uid, DecimalInt(expires), disposition)
  }

  function Origin(host: string, port: int): string {
    host + (if port != -1 then ":" + DecimalInt(port) else "")
  }

  function Params(uid: string, expires: int, signature: string, disposition: Option<string>): seq<string> {
    ["uid=" + Encode(uid), "expires=" + DecimalInt(expires), "signature=" + Encode(signature)]
    + (if disposition.Some? then ["disposition=" + Encode(disposition.value)] else [])
  }

  /** The URL behind the origin. */
  function Target(uri: string, uid: string, expires: int, signature: string, disposition: Option<string>): string {
    uri + "?" + Join("&", Params(uid, expires, signature, disposition))
  }

  lemma DecimalNulFree(n: int)
    ensures NulFree(DecimalInt(n)) && '&' !in DecimalInt(n) && '?' !in DecimalInt(n)
  {
    assert forall i :: 0 <= i < |DecimalInt(n)| ==> '0' <= DecimalInt(n)[i] <= '9' || DecimalInt(n)[i] == '-';
  }

  // ---------------------------------------------------------------- the code

  method AppendHashTail(b: CBuffer, uid: string, expires_str: string, disposition: Option<string>)
    requires b.Valid() && NulFree(uid) && NulFree(expires_str) && (disposition.Some? ==> NulFree(disposition.value))
    modifies b.Repr
    ensures b.Valid() && fresh(b.Repr - old(b.Repr))
    ensures b.text == old(b.text) + HashTail(uid, expires_str, disposition)
  {
    b.Append(uid);
    b.Append("\n");
    b.Append(expires_str);
    ghost var fixed := uid + "\n" + expires_str;
    assert b.text == old(b.text) + fixed;
    if disposition.Some? {
      b.Append("\n");
      b.Append(disposition.value);
      assert b.text == old(b.text) + (fixed + ("\n" + disposition.value));
    } else {
      assert fixed + "" == fixed;
    }
  }

  method BuildHashString(uri: string, uid: string, expires_str: string, disposition: Option<string>)
      returns (hash: string)
    requires NulFree(uri) && NulFree(uid) && NulFree(expires_str) && (disposition.Some? ==> NulFree(disposition.value))
    ensures hash == "GET\n" + Lower(uri) + "\n" + HashTail(uid, expires_str, disposition)
  {
    hide HashTail, Lower;
    var b := new CBuffer();
    b.Append("GET\n");
    var uri_lower := LowerUri(uri);
    b.Append(uri_lower);
    b.Append("\n");
    AppendHashTail(b, uid, expires_str, disposition);
    hash := b.Text();
  }

  /** A separator and a name in front of a value, percent-encoded or not. */
  method AppendParam(b: CBuffer, sep: string, name: string, value: string, encode: bool)
    requires b.Valid() && NulFree(sep) && NulFree(name) && NulFree(value)
    modifies b.Repr
    ensures b.Valid() && fresh(b.Repr - old(b.Repr))
    ensures b.text == old(b.text) + (sep + (name + (if encode then Encode(value) else value)))
  {
    b.Append(sep + name);
    if encode {
      b.AppendUtf8(value);
    } else {
      b.Append(value);
    }
  }

  lemma QueryJoin(t: string, p: string, q: string, r: string)
    ensures t + ("?" + p) + ("&" + q) + ("&" + r) == t + ("?" + Join("&", [p, q, r]))
  {
    JoinThree("&", p, q, r);
  }

  lemma QueryLonger(t: string, params: seq<string>, last: string)
    requires params != []
    ensures t + ("?" + Join("&", params)) + ("&" + last) == t + ("?" + Join("&", params + [last]))
  {
    JoinAppend("&", params, [last]);
  }

  method AppendQuery(b: CBuffer, uid: string, expires: int, signature: string, disposition: Option<string>)
    requires b.Valid() && NulFree(uid) && NulFree(signature) && (disposition.Some? ==> NulFree(disposition.value))
    modifies b.Repr
    ensures b.Valid() && fresh(b.Repr - old(b.Repr))
    ensures b.text == old(b.text) + ("?" + Join("&", Params(uid, expires, signature, disposition)))
  {
    AppendFixedParams(b, uid, expires, signature);
    ghost var three := Params(uid, expires, signature, None);
    if disposition.Some? {
      AppendParam(b, "&", "disposition=", disposition.value, true);
      QueryLonger(old(b.text), three, "disposition=" + Encode(disposition.value));
      assert Params(uid, expires, signature, disposition) == three + ["disposition=" + Encode(disposition.value)];
    } else {
      assert Params(uid, expires, signature, disposition) == three;
    }
  }

  method AppendFixedParams(b: CBuffer, uid: string, expires: int, signature: string)
    requires b.Valid() && NulFree(uid) && NulFree(signature)
    modifies b.Repr
    ensures b.Valid() && fresh(b.Repr - old(b.Repr))
    ensures b.text == old(b.text) + ("?" + Join("&", Params(uid, expires, signature, None)))
  {
    hide Encode, DecimalInt, Join;
    DecimalNulFree(expires);
    AppendParam(b, "?", "uid=", uid, true);
    AppendParam(b, "&", "expires=", DecimalInt(expires), false);
    AppendParam(b, "&", "signature=", signature, true);
    ghost var p, q, r := "uid=" + Encode(uid), "expires=" + DecimalInt(expires), "signature=" + Encode(signature);
    QueryJoin(old(b.text), p, q, r);
    assert Params(uid, expires, signature, None) == [p, q, r];
  }

  method AppendOrigin(b: CBuffer, host: string, port: int)
    requires b.Valid() && b.text == "" && NulFree(host)
    modifies b.Repr
    ensures b.Valid() && fresh(b.Repr - old(b.Repr))
    ensures b.text == Origin(host, port)
  {
    b.Append(host);
    if port != -1 {
      DecimalNulFree(port);
      b.Append(":" + DecimalInt(port));
    } else {
      assert host + "" == host;
    }
  }

  method GetShareableUrl(host: string, port: int, uri: string, uid: string, expires: int, disposition: Option<string>,
                         sign: string -> string)
    returns (url: string)
    requires NulFree(host) && NulFree(uri) && NulFree(uid) && (disposition.Some? ==> NulFree(disposition.value))
    requires NulFree(sign(HashString(uri, uid, expires, disposition)))
    ensures url == Origin(host, port) +
                   Target(uri, uid, expires, sign(HashString(uri, uid, expires, disposition)), disposition)
  {
    DecimalNulFree(expires);
    var hash_string := BuildHashString(uri, uid, DecimalInt(expires), disposition);
    var signature := sign(hash_string);
    var b := new CBuffer();
    AppendOrigin(b, host, port);
    b.Append(uri);
    AppendQuery(b, uid, expires, signature, disposition);
    url := b.Text();
    TargetText(Origin(host, port), uri, Join("&", Params(uid, expires, signature, disposition)));
  }

  lemma TargetText(origin: string, uri: string, query: string)
    ensures origin + uri + ("?" + query) == origin + (uri + "?" + query)
  {
  }

  // ---------------------------------------------------------------- what is signed

  /** The lines of the signed text; a disposition may bring lines of its own. */
  function SignedParts(uri: string, uid: string, expires: int, disposition: Option<string>): seq<string> {
    ["GET", Lower(uri), uid, DecimalInt(expires)] + (if disposition.Some? then Split(disposition.value, '\n') else [])
  }

  lemma HashStringIsJoin(uri: string, uid: string, expires: int, disposition: Option<string>)
    ensures HashString(uri, uid, expires, disposition) == Join("\n", SignedParts(uri, uid, expires, disposition))
  {
    hide DecimalInt, Lower, Split;
    var four := ["GET", Lower(uri), uid, DecimalInt(expires)];
    FourJoined("GET", Lower(uri), uid, DecimalInt(expires));
    if disposition.Some? {
      JoinAppend("\n", four, Split(disposition.value, '\n'));
      JoinSplit(disposition.value, '\n');
      assert "\n" == ['\n'];
    } else {
      assert four + [] == four;
    }
    TextJoined(Lower(uri), uid, DecimalInt(expires), if disposition.Some? then "\n" + disposition.value else "");
  }

  lemma TextJoined(path: string, uid: string, expires: string, last: string)
    ensures "GET\n" + path + "\n" + (uid + "\n" + expires + last)
        == "GET" + "\n" + path + "\n" + uid + "\n" + expires + last
  {
  }

  lemma FourJoined(a: string, b: string, c: string, d: string)
    ensures Join("\n", [a, b, c, d]) == a + "\n" + b + "\n" + c + "\n" + d
  {
    JoinThree("\n", a, b, c);
    JoinAppend("\n", [a, b, c], [d]);
    assert [a, b, c] + [d] == [a, b, c, d];
  }

  /** The signed text, line by line: the method, the path, the uid, a number that reads back as the
      expiry, and the disposition. */
  lemma HashStringSplits(uri: string, uid: string, expires: int, disposition: Option<string>)
    requires '\n' !in uri && '\n' !in uid
    ensures Split(HashString(uri, uid, expires, disposition), '\n') ==
              ["GET", Lower(uri), uid, DecimalInt(expires)]
                  + (if disposition.Some? then Split(disposition.value, '\n') else [])
    ensures ParseDecimalInt(DecimalInt(expires)) == Some(expires)
  {
    HashStringIsJoin(uri, uid, expires, disposition);
    ParsePrintedDecimalInt(expires);
    DecimalNoNewline(expires);
    LowerAbsent(uri, '\n');
    hide DecimalInt, Lower, HashString, Split;
    var parts := SignedParts(uri, uid, expires, disposition);
    assert "\n" == ['\n'];
    SplitJoin(parts, '\n');
  }

  lemma DecimalNoNewline(n: int)
    ensures '\n' !in DecimalInt(n)
  {
    var d := DecimalInt(n);
    assert forall i :: 0 <= i < |d| ==> '0' <= d[i] <= '9' || d[i] == '-';
  }

  /** The signature covers the path up to case, the uid, the expiry and the disposition. */
  lemma HashStringDetermines(uri: string, uid: string, expires: int, disposition: Option<string>,
                             uri': string, uid': string, expires': int, disposition': Option<string>)
    requires '\n' !in uri && '\n' !in uid && '\n' !in uri' && '\n' !in uid'
    ensures HashString(uri, uid, expires, disposition) == HashString(uri', uid', expires', disposition') <==>
              Lower(uri) == Lower(uri') && uid == uid' && expires == expires' && disposition == disposition'
  {
    hide DecimalInt, Lower, Split;
    if HashString(uri, uid, expires, disposition) == HashString(uri', uid', expires', disposition') {
      hide HashString;
      HashStringSplits(uri, uid, expires, disposition);
      HashStringSplits(uri', uid', expires', disposition');
      var p, q := SignedParts(uri, uid, expires, disposition), SignedParts(uri', uid', expires', disposition');
      assert p[1] == q[1] && p[2] == q[2] && p[3] == q[3] && p[4..] == q[4..];
      if disposition.Some? { JoinSplit(disposition.value, '\n'); }
      if disposition'.Some? { JoinSplit(disposition'.value, '\n'); }
    }
  }

  /** The URL begins with the host and, unless it is -1, the port. */
  lemma OriginSplits(host: string, port: int)
    requires ':' !in host
    ensures Split(Origin(host, port), ':') == if port == -1 then [host] else [host, DecimalInt(port)]
    ensures ParseDecimalInt(DecimalInt(port)) == Some(port)
  {
    ParsePrintedDecimalInt(port);
    DecimalNoColon(port);
    hide DecimalInt, Split;
    assert ":" == [':'];
    if port == -1 {
      SplitJoin([host], ':');
      JoinOne(host, ":");
      assert host + "" == host;
    } else {
      SplitJoin([host, DecimalInt(port)], ':');
      JoinFirst(host, [DecimalInt(port)], ":");
      JoinOne(DecimalInt(port), ":");
      assert [host] + [DecimalInt(port)] == [host, DecimalInt(port)];
    }
  }

  lemma DecimalNoColon(n: int)
    ensures ':' !in DecimalInt(n)
  {
    var d := DecimalInt(n);
    assert forall i :: 0 <= i < |d| ==> '0' <= d[i] <= '9' || d[i] == '-';
  }

  // ---------------------------------------------------------------- the server's side

  /** The value of the first parameter with this name, percent-decoded. */
  function Param(params: seq<string>, name: string): Option<string> {
    if params == [] then None
    else if name + "=" <= params[0] then Some(Decode(params[0][|name| + 1..]))
    else Param(params[1..], name)
  }

  /** The text a server signs for a request target: the path up to the question mark and the
      parameters behind it. None if a parameter is missing or the expiry is not a number. */
  function Rebuilt(target: string): Option<string> {
    var q := IndexOf(target, '?');
    if q == |target| then None
    else
      var params := Split(target[q + 1..], '&');
      var uid, expires := Param(params, "uid"), Param(params, "expires");
      if uid.None? || expires.None? || ParseDecimalInt(expires.value).None? then None
      else Some(HashString(target[..q], uid.value, ParseDecimalInt(expires.value).value, Param(params, "disposition")))
  }

  function RebuiltSignature(target: string): Option<string> {
    var q := IndexOf(target, '?');
    if q == |target| then None else Param(Split(target[q + 1..], '&'), "signature")
  }

  lemma ParamsWithout(c: char, uid: string, expires: int, signature: string, disposition: Option<string>)
    requires c == '&' || c == '?'
    ensures AllWithout(c, Params(uid, expires, signature, disposition))
  {
    hide Encode, DecimalInt;
    EncodedWithout(uid, c);
    EncodedWithout(signature, c);
    DecimalNulFree(expires);
    if disposition.Some? { EncodedWithout(disposition.value, c); }
  }

  lemma DecodeDecimal(n: int)
    ensures Decode(DecimalInt(n)) == DecimalInt(n)
  {
    var s := DecimalInt(n);
    assert forall i :: 0 <= i < |s| ==> '0' <= s[i] <= '9' || s[i] == '-';
    DecodeWithoutPercent(s);
  }

  lemma {:induction false} DecodeWithoutPercent(s: string)
    requires forall i :: 0 <= i < |s| ==> s[i] != '%'
    ensures Decode(s) == s
  {
    if s != [] {
      DecodeWithoutPercent(s[1..]);
      assert s == [s[0]] + s[1..];
    }
  }

  lemma ParamHead(name: string, value: string, rest: seq<string>)
    ensures Param([name + "=" + value] + rest, name) == Some(Decode(value))
  {
    var p := name + "=" + value;
    assert p[|name| + 1..] == value && p[..|name| + 1] == name + "=";
  }

  lemma ParamSkip(name: string, value: string, rest: seq<string>, wanted: string)
    requires name != "" && wanted != "" && name[0] != wanted[0]
    ensures Param([name + "=" + value] + rest, wanted) == Param(rest, wanted)
  {
    var p := name + "=" + value;
    assert p[0] == name[0] && (wanted + "=")[0] == wanted[0];
    assert ([p] + rest)[1..] == rest;
  }

  /** Looking the parameters up gives back what was put in. */
  lemma ParamsFound(uid: string, expires: int, signature: string, disposition: Option<string>)
    requires IsCString(uid) && IsCString(signature) && (disposition.Some? ==> IsCString(disposition.value))
    ensures var params := Params(uid, expires, signature, disposition);
            && Param(params, "uid") == Some(uid) && Param(params, "expires") == Some(DecimalInt(expires))
            && Param(params, "signature") == Some(signature) && Param(params, "disposition") == disposition
  {
    var e, s := DecimalInt(expires), Encode(signature);
    var last := if disposition.Some? then ["disposition=" + Encode(disposition.value)] else [];
    var r3 := ["signature" + "=" + s] + last;
    var r2 := ["expires" + "=" + e] + r3;
    var r1 := ["uid" + "=" + Encode(uid)] + r2;
    assert "uid=" == "uid" + "=" && "expires=" == "expires" + "=" && "signature=" == "signature" + "="
        && "disposition=" == "disposition" + "=";
    assert Params(uid, expires, signature, disposition) == r1;
    DecodeEncode(uid);
    DecodeEncode(signature);
    DecodeDecimal(expires);
    ParamHead("uid", Encode(uid), r2);
    ParamHead("expires", e, r3);
    ParamHead("signature", s, last);
    ParamSkip("uid", Encode(uid), r2, "expires");
    ParamSkip("uid", Encode(uid), r2, "signature");
    ParamSkip("uid", Encode(uid), r2, "disposition");
    ParamSkip("expires", e, r3, "signature");
    ParamSkip("expires", e, r3, "disposition");
    ParamSkip("signature", s, last, "disposition");
    if disposition.Some? {
      DecodeEncode(disposition.value);
      ParamHead("disposition", Encode(disposition.value), []);
      assert last == ["disposition" + "=" + Encode(disposition.value)] + [];
    }
  }

  lemma SplitTarget(uri: string, uid: string, expires: int, signature: string, disposition: Option<string>)
    requires '?' !in uri
    ensures var t := Target(uri, uid, expires, signature, disposition);
            IndexOf(t, '?') == |uri| < |t| && t[..|uri|] == uri
            && Split(t[|uri| + 1..], '&') == Params(uid, expires, signature, disposition)
  {
    var params := Params(uid, expires, signature, disposition);
    var t := Target(uri, uid, expires, signature, disposition);
    assert t[..|uri|] == uri && t[|uri|] == '?' && t[|uri| + 1..] == Join("&", params);
    IndexOfFirst(t, '?', |uri|);
    ParamsWithout('&', uid, expires, signature, disposition);
    SplitJoin(params, '&');
    assert "&" == ['&'];
  }

  /** The URL says everything that was signed, and nothing else, exactly when its path has no
      question mark of its own; with or without a disposition, for any bytes in the values. */
  lemma SelfDescribingIff(uri: string, uid: string, expires: int, signature: string, disposition: Option<string>)
    requires IsCString(uid) && IsCString(signature) && (disposition.Some? ==> IsCString(disposition.value))
    ensures var target := Target(uri, uid, expires, signature, disposition);
            Rebuilt(target) == Some(HashString(uri, uid, expires, disposition)) <==> '?' !in uri
    ensures '?' !in uri ==> RebuiltSignature(Target(uri, uid, expires, signature, disposition)) == Some(signature)
  {
    var t := Target(uri, uid, expires, signature, disposition);
    if '?' !in uri {
      SplitTarget(uri, uid, expires, signature, disposition);
      ParamsFound(uid, expires, signature, disposition);
      ParsePrintedDecimalInt(expires);
    } else if Rebuilt(t).Some? {
      QuestionMarkInPath(uri, Join("&", Params(uid, expires, signature, disposition)));
      RebuiltDiffers(t, IndexOf(uri, '?'), uri, HashTail(uid, DecimalInt(expires), disposition));
    }
  }

  lemma QuestionMarkInPath(uri: string, query: string)
    requires '?' in uri
    ensures IndexOf(uri + "?" + query, '?') == IndexOf(uri, '?') < |uri|
  {
    var k := IndexOf(uri, '?');
    var t := uri + "?" + query;
    assert forall i :: 0 <= i < k ==> t[..k][i] == uri[i];
    IndexOfFirst(t, '?', k);
  }

  lemma PathsDiffer(path: string, tail: string, longer: string, other: string)
    requires |path| < |longer| && longer[|path|] != '\n'
    ensures "GET\n" + path + "\n" + tail != "GET\n" + longer + "\n" + other
  {
    var a, b := "GET\n" + path + "\n" + tail, "GET\n" + longer + "\n" + other;
    assert a[4 + |path|] == '\n' && b[4 + |path|] == longer[|path|];
  }

  /** A path cut at its own question mark cannot give the signed text. */
  lemma RebuiltDiffers(t: string, k: nat, uri: string, tail: string)
    requires Rebuilt(t).Some? && k == IndexOf(t, '?') < |uri| && uri[k] == '?'
    ensures Rebuilt(t).value != "GET\n" + Lower(uri) + "\n" + tail
  {
    hide Split, Param, ParseDecimalInt, DecimalInt, HashTail;
    var params := Split(t[k + 1..], '&');
    var expires := ParseDecimalInt(Param(params, "expires").value).value;
    PathsDiffer(Lower(t[..k]), HashTail(Param(params, "uid").value, DecimalInt(expires), Param(params, "disposition")),
                Lower(uri), tail);
  }
}
