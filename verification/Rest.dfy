/** The part of rest-client-c the client builds on: a request with its header lines, and the
    lookup of a header's value. rest-client-c is not part of the repository; the lookup is the
    first line whose name matches in either case, without the spaces after the colon. */
module Rest {
  import opened CStrings
  import opened Whitespace

  datatype HttpMethod = Post | Get | Put | Delete | Head | Options

  const HTTP_HEADER_CONTENT_TYPE := "Content-Type"
  const HTTP_HEADER_RANGE := "Range"
  const HTTP_HEADER_CONTENT_RANGE := "Content-Range"
  const HTTP_HEADER_DATE := "Date"

  const ATMOS_SIMPLE_HEADER_MAX: nat := 255
  const ATMOS_UID_MAX: nat := 255

  predicate HasName(header: string, name: string) {
    && |name| < |header| && header[|name|] == ':'
    && Lower(header[..|name|]) == Lower(name)
  }

  function HeaderValue(headers: seq<string>, name: string): (value: Option<string>) {
    if headers == [] then None
    else if HasName(headers[0], name) then Some(SkipSpaces(headers[0][|name| + 1..]))
    else HeaderValue(headers[1..], name)
  }

  lemma {:induction false} HeaderValueFromLine(headers: seq<string>, name: string, c: char)
    requires forall h :: h in headers ==> c !in h
    requires HeaderValue(headers, name).Some?
    ensures c !in HeaderValue(headers, name).value
  {
    if HasName(headers[0], name) {
      assert c !in headers[0];
      SkippedSpaces(headers[0][|name| + 1..]);
    } else {
      HeaderValueFromLine(headers[1..], name, c);
    }
  }

  lemma {:induction false} HeaderValueAppend(headers: seq<string>, more: seq<string>, name: string)
    ensures HeaderValue(headers + more, name) ==
            if HeaderValue(headers, name).Some? then HeaderValue(headers, name) else HeaderValue(more, name)
  {
    if headers == [] {
      assert headers + more == more;
    } else {
      assert (headers + more)[1..] == headers[1..] + more;
      HeaderValueAppend(headers[1..], more, name);
    }
  }

  /** A line as the printers write it answers a lookup of its name with its text. */
  lemma LineValue(name: string, text: string)
    ensures HeaderValue([name + ": " + text], name) == Some(SkipSpaces(text))
  {
    var h := name + ": " + text;
    assert h[..|name|] == name && h[|name|] == ':' && h[|name| + 1..] == " " + text;
    assert (" " + text)[1..] == text;
  }

  /** It does not answer a lookup of a name that differs from its own in one place. */
  lemma OtherLineValue(name: string, text: string, wanted: string, i: nat)
    requires i < |name| && i < |wanted| && ToLower(name[i]) != ToLower(wanted[i])
    ensures HeaderValue([name + ": " + text], wanted) == None
  {
    var h := name + ": " + text;
    assert h[i] == name[i];
    assert |wanted| < |h| ==> Lower(h[..|wanted|])[i] == ToLower(name[i]);
    var lines: seq<string> := [h];
    assert lines[1..] == [];
  }

  /** A line has a name if and only if the text before its colon is that name, in any case. */
  lemma HasNameIff(given: string, rest: string, name: string)
    requires ':' !in given && ':' !in name
    ensures HasName(given + ":" + rest, name) <==> Lower(given) == Lower(name)
  {
    var line := given + ":" + rest;
    assert line[|given|] == ':' && line[..|given|] == given;
    if |name| < |given| { assert line[|name|] == given[|name|]; }
    if |given| < |name| {
      assert name[|given|] in name;
      assert Lower(name)[|given|] == ToLower(name[|given|]) != ':';
      assert |name| < |line| ==> Lower(line[..|name|])[|given|] == ToLower(line[|given|]) == ':';
    }
  }

  /** The first line with the name answers, without the spaces behind the colon. */
  lemma {:induction false} HeaderValueIsFirst(headers: seq<string>, name: string, k: nat)
    requires k < |headers| && HasName(headers[k], name) && forall i :: 0 <= i < k ==> !HasName(headers[i], name)
    ensures HeaderValue(headers, name) == Some(SkipSpaces(headers[k][|name| + 1..]))
  {
    if k > 0 { HeaderValueIsFirst(headers[1..], name, k - 1); }
  }

  /** A line does not have a name it differs from in one place. */
  lemma NotNamed(line: string, name: string, i: nat)
    requires i < |line| && i < |name| && ToLower(line[i]) != ToLower(name[i])
    ensures !HasName(line, name)
  {
    assert |name| < |line| ==> Lower(line[..|name|])[i] == ToLower(line[i]);
    assert Lower(name)[i] == ToLower(name[i]);
  }

  lemma {:induction false} NoneNamed(lines: seq<string>, name: string)
    requires forall line :: line in lines ==> !HasName(line, name)
    ensures HeaderValue(lines, name) == None
  {
    hide HasName;
    if lines != [] {
      assert lines[0] in lines;
      NoneNamed(lines[1..], name);
    }
  }

  /** What signing sees of a request. */
  datatype Request = Request(verb: HttpMethod, uri: string, headers: seq<string>)

  /** Every header is a C string with a colon in it; lower-casing a header name stops there only. */
  predicate WellFormed(r: Request) {
    NulFree(r.uri) && forall h :: h in r.headers ==> NulFree(h) && ':' in h
  }

  class RestRequest {
    var verb: HttpMethod
    var uri: string
    var headers: seq<string>

    constructor (uri: string, verb: HttpMethod)
      ensures View() == Request(verb, uri, [])
    {
      this.uri, this.verb, this.headers := uri, verb, [];
    }

    function View(): Request
      reads this
    {
      Request(verb, uri, headers)
    }

    method AddHeader(header: string)
      modifies this`headers
      ensures headers == old(headers) + [header]
    {
      headers := headers + [header];
    }
  }
}
