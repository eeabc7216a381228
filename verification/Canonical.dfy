/** The string a request is signed by: `AtmosClient_canonicalize_request`. */
module Canonical {
  import opened CStrings
  import opened StringBuffer
  import opened Whitespace
  import opened Ordering
  import opened Rest

  // ---------------------------------------------------------------- the string to sign

  function MethodName(verb: HttpMethod): string {
    match verb
    case Post => "POST"
    case Get => "GET"
    case Put => "PUT"
    case Delete => "DELETE"
    case Head => "HEAD"
    case Options => "OPTIONS"
  }

  /** A header as it is signed. */
  function Line(header: string): string { Normalize(LowerHeader(header)) }

  function Lines(headers: seq<string>): (lines: seq<string>)
    ensures |lines| == |headers|
    ensures forall i :: 0 <= i < |headers| ==> lines[i] == Line(headers[i])
  {
    seq(|headers|, i requires 0 <= i < |headers| => Line(headers[i]))
  }

  predicate IsEmc(line: string) { "x-emc" <= line }

  function EmcOnly(lines: seq<string>): (r: seq<string>)
    ensures forall l :: l in r ==> l in lines && IsEmc(l)
  {
    if lines == [] then []
    else if IsEmc(lines[0]) then [lines[0]] + EmcOnly(lines[1..])
    else EmcOnly(lines[1..])
  }

  function SignedLines(headers: seq<string>): seq<string> { EmcOnly(Sort(Lines(headers))) }

  function OrEmpty(value: Option<string>): string {
    if value.Some? then value.value else ""
  }

  function ContentType(r: Request): string { OrEmpty(HeaderValue(r.headers, HTTP_HEADER_CONTENT_TYPE)) }

  function Range(r: Request): string {
    var range := HeaderValue(r.headers, HTTP_HEADER_RANGE);
    if range.Some? then range.value else OrEmpty(HeaderValue(r.headers, HTTP_HEADER_CONTENT_RANGE))
  }

  function Date(r: Request): string { OrEmpty(HeaderValue(r.headers, HTTP_HEADER_DATE)) }

  /** The lines of the string: five fixed ones, then the signed headers, or one empty line. */
  function Fields(r: Request): seq<string> {
    var lines := SignedLines(r.headers);
    [MethodName(r.verb), ContentType(r), Range(r), Date(r), Lower(r.uri)] + (if lines == [] then [""] else lines)
  }

  function StringToSign(r: Request): string { Join("\n", Fields(r)) }

  // ---------------------------------------------------------------- the string determines the request

  /** No newline where it could pass for the end of a field. */
  predicate NewlineFree(r: Request) {
    && '\n' !in ContentType(r) && '\n' !in Range(r) && '\n' !in Date(r)
    && '\n' !in r.uri && AllWithout('\n', SignedLines(r.headers))
  }

  /** A request without a newline anywhere is such a request. */
  lemma NoNewlineAnywhere(r: Request)
    requires '\n' !in r.uri && forall h :: h in r.headers ==> '\n' !in h
    ensures NewlineFree(r)
  {
    var h := r.headers;
    if HeaderValue(h, HTTP_HEADER_CONTENT_TYPE).Some? { HeaderValueFromLine(h, HTTP_HEADER_CONTENT_TYPE, '\n'); }
    if HeaderValue(h, HTTP_HEADER_RANGE).Some? { HeaderValueFromLine(h, HTTP_HEADER_RANGE, '\n'); }
    if HeaderValue(h, HTTP_HEADER_CONTENT_RANGE).Some? { HeaderValueFromLine(h, HTTP_HEADER_CONTENT_RANGE, '\n'); }
    if HeaderValue(h, HTTP_HEADER_DATE).Some? { HeaderValueFromLine(h, HTTP_HEADER_DATE, '\n'); }
    forall l | l in SignedLines(h)
      ensures '\n' !in l
    {
      SignedLineOrigin(h, l, '\n');
    }
  }

  lemma FieldsNewlineFree(r: Request)
    ensures AllWithout('\n', Fields(r)) <==> NewlineFree(r)
  {
    hide ContentType, Range, Date, SignedLines, MethodName;
    var f, lines := Fields(r), SignedLines(r.headers);
    var last := if lines == [] then [""] else lines;
    assert f[1] == ContentType(r) && f[2] == Range(r) && f[3] == Date(r) && f[4] == Lower(r.uri);
    assert forall k :: 0 <= k < |last| ==> f[5 + k] == last[k];
    LowerNewline(r.uri);
    MethodNameOneLine(r.verb);
    assert forall k :: 5 <= k < |f| ==> f[k] == last[k - 5];
  }

  lemma MethodNameOneLine(verb: HttpMethod)
    ensures '\n' !in MethodName(verb)
  {
  }

  lemma LowerNewline(s: string)
    ensures '\n' in Lower(s) <==> '\n' in s
  {
    if '\n' in s {
      var k :| 0 <= k < |s| && s[k] == '\n';
      assert Lower(s)[k] == '\n';
    } else {
      LowerAbsent(s, '\n');
    }
  }

  lemma SignedLineOrigin(headers: seq<string>, line: string, c: char)
    requires line in SignedLines(headers)
    ensures exists i :: 0 <= i < |headers| && line == Line(headers[i])
    ensures c != ' ' && !('a' <= c <= 'z') && !('A' <= c <= 'Z') && (forall h :: h in headers ==> c !in h) ==>
        c !in line
  {
    SortSorts(Lines(headers));
    assert line in multiset(Sort(Lines(headers)));
    assert line in Lines(headers);
    var i :| 0 <= i < |headers| && line == Line(headers[i]);
    if c != ' ' && !('a' <= c <= 'z') && !('A' <= c <= 'Z') && forall h :: h in headers ==> c !in h {
      assert headers[i] in headers;
      LowerHeaderKeeps(headers[i], c);
      NormalizeKeeps(LowerHeader(headers[i]), c);
    }
  }

  /** Reading the string line by line gives the fields back, exactly when none holds a newline. */
  lemma StringToSignSplits(r: Request)
    ensures Split(StringToSign(r), '\n') == Fields(r) <==> NewlineFree(r)
  {
    FieldsNewlineFree(r);
    if NewlineFree(r) { SplitJoin(Fields(r), '\n'); }
    assert "\n" == ['\n'];
  }

  /** The names of the methods, in the order of the enumeration. */
  lemma MethodNames()
    ensures [MethodName(Post), MethodName(Get), MethodName(Put), MethodName(Delete), MethodName(Head),
        MethodName(Options)]
            == ["POST", "GET", "PUT", "DELETE", "HEAD", "OPTIONS"]
  {
  }

  /** What stands in each line of the string. The first five are the method, three looked-up values and
      the URI in lower case; the rest are the `x-emc` headers in their signed form, each as often as it
      occurs, none before one that is smaller at the first difference. */
  lemma StringToSignLines(r: Request)
    requires NewlineFree(r)
    ensures var lines, h := Split(StringToSign(r), '\n'), r.headers;
            && |lines| >= 6
            && lines[0] == MethodName(r.verb)
            && lines[1] == OrEmpty(HeaderValue(h, "Content-Type"))
            && lines[2] == OrEmpty(if HeaderValue(h, "Range").Some? then HeaderValue(h, "Range")
                else HeaderValue(h, "Content-Range"))
            && lines[3] == OrEmpty(HeaderValue(h, "Date"))
            && lines[4] == Lower(r.uri)
            && Ascending(lines[5..])
            && forall line :: line != "" ==>
                 multiset(lines[5..])[line] == if "x-emc" <= line then multiset(Lines(h))[line] else 0
  {
    StringToSignSplits(r);
    SignedLinesAre(r.headers);
    FieldsTail(r);
    hide HeaderValue, StringToSign, Split, SignedLines, Lines, Lower, MethodName, Ascending;
    var signed := SignedLines(r.headers);
    if signed == [] {
      OnlyEmpty();
      var one: seq<string> := [""];
      assert forall line :: line != "" ==> multiset(one)[line] == 0;
    }
  }

  lemma FieldsTail(r: Request)
    ensures Fields(r)[5..] == if SignedLines(r.headers) == [] then [""] else SignedLines(r.headers)
  {
    hide SignedLines, ContentType, Range, Date, MethodName, Lower;
  }

  lemma OnlyEmpty()
    ensures Ascending([""])
  {
  }

  lemma SignedLinesAre(headers: seq<string>)
    ensures Ascending(SignedLines(headers))
    ensures forall line ::
              multiset(SignedLines(headers))[line] == if "x-emc" <= line then multiset(Lines(headers))[line] else 0
  {
    hide Lines, Line, EmcOnly, Sort, Ascending, Sorted;
    FilterThenSort(Lines(headers));
    SortSorts(EmcOnly(Lines(headers)));
    SortedIsAscending(SignedLines(headers));
    forall line
      ensures multiset(SignedLines(headers))[line] == if "x-emc" <= line then multiset(Lines(headers))[line] else 0
    {
      EmcCount(Lines(headers), line);
    }
  }

  lemma MethodNamesDiffer(v: HttpMethod, w: HttpMethod)
    requires MethodName(v) == MethodName(w)
    ensures v == w
  {
    assert MethodName(v)[0] == MethodName(w)[0] && MethodName(v)[1] == MethodName(w)[1];
  }

  /** What a signature says about a request. */
  ghost predicate SameToTheSigner(a: Request, b: Request) {
    && a.verb == b.verb
    && ContentType(a) == ContentType(b) && Range(a) == Range(b) && Date(a) == Date(b)
    && Lower(a.uri) == Lower(b.uri)
    && multiset(EmcOnly(Lines(a.headers))) == multiset(EmcOnly(Lines(b.headers)))
  }

  /** Requests whose fields hold no newline sign alike exactly when they agree on the method, the
      three looked-up values, the URI up to case, and, counting repeats, on the `x-emc` headers
      up to the case of the name and spaces that do not matter. */
  lemma StringToSignCharacterised(a: Request, b: Request)
    requires NewlineFree(a) && NewlineFree(b)
    ensures StringToSign(a) == StringToSign(b) <==> SameToTheSigner(a, b)
  {
    SignedLinesCompare(a.headers, b.headers);
    if StringToSign(a) == StringToSign(b) {
      StringToSignSplits(a);
      StringToSignSplits(b);
      var p, q := Fields(a), Fields(b);
      assert p[0] == q[0] && p[1] == q[1] && p[2] == q[2] && p[3] == q[3] && p[4] == q[4] && p[5..] == q[5..];
      MethodNamesDiffer(a.verb, b.verb);
      var la, lb := SignedLines(a.headers), SignedLines(b.headers);
      assert forall l :: (l in la || l in lb) ==> IsEmc(l) && l != "";
      assert la != [] ==> la[0] in la;
      assert lb != [] ==> lb[0] in lb;
      assert p[5..] == if la == [] then [""] else la;
      assert q[5..] == if lb == [] then [""] else lb;
      assert la == lb;
    }
  }

  lemma LineStartsLike(header: string)
    requires header != "" && header[0] != ' ' && header[0] != ':'
    ensures Line(header) != "" && Line(header)[0] == ToLower(header[0])
  {
    assert LowerHeader(header)[0] == ToLower(header[0]);
  }

  lemma OneLineRequest(name: string, uri: string)
    requires |name| > 0 && name[0] != ' ' && name[0] != ':' && ToLower(name[0]) != 'x'
    ensures SignedLines([name + ": " + "\n"]) == []
  {
    var headers := [name + ": " + "\n"];
    if SignedLines(headers) != [] {
      SignedLineOrigin(headers, SignedLines(headers)[0], NUL);
      LineStartsLike(headers[0]);
    }
  }

  lemma CollisionValues(uri: string)
    ensures var a, b := Request(Get, uri, [HTTP_HEADER_CONTENT_TYPE + ": " + "\n"]),
        Request(Get, uri, [HTTP_HEADER_RANGE + ": " + "\n"]);
            && ContentType(a) == "\n" && Range(a) == "" && Date(a) == ""
            && ContentType(b) == "" && Range(b) == "\n" && Date(b) == ""
  {
    var t, r := HTTP_HEADER_CONTENT_TYPE, HTTP_HEADER_RANGE;
    LineValue(t, "\n");
    OtherLineValue(t, "\n", r, 0);
    OtherLineValue(t, "\n", HTTP_HEADER_CONTENT_RANGE, 8);
    OtherLineValue(t, "\n", HTTP_HEADER_DATE, 0);
    LineValue(r, "\n");
    OtherLineValue(r, "\n", t, 0);
    OtherLineValue(r, "\n", HTTP_HEADER_DATE, 0);
  }

  lemma JoinHead(head: string, rest: seq<string>)
    requires rest != []
    ensures Join("\n", [head] + rest) == head + "\n" + Join("\n", rest)
  {
    JoinAppend("\n", [head], rest);
  }

  /** A newline may stand in the second field or in the third. */
  lemma NewlineMoves(head: string, tail: seq<string>)
    requires tail != []
    ensures Join("\n", [head] + (["\n"] + ([""] + tail))) == Join("\n", [head] + ([""] + (["\n"] + tail)))
  {
    var t := Join("\n", tail);
    JoinHead("", tail);
    JoinHead("\n", [""] + tail);
    JoinHead("\n", tail);
    JoinHead("", ["\n"] + tail);
    JoinHead(head, ["\n"] + ([""] + tail));
    JoinHead(head, [""] + (["\n"] + tail));
    assert "\n" + "\n" + ("" + "\n" + t) == "" + "\n" + ("\n" + "\n" + t);
  }

  /** The condition on newlines is needed: a newline in one field can pass for the end of another. */
  lemma NewlineCollision(uri: string) returns (a: Request, b: Request)
    ensures StringToSign(a) == StringToSign(b) && !SameToTheSigner(a, b)
  {
    a, b := Request(Get, uri, [HTTP_HEADER_CONTENT_TYPE + ": " + "\n"]),
        Request(Get, uri, [HTTP_HEADER_RANGE + ": " + "\n"]);
    CollisionValues(uri);
    OneLineRequest(HTTP_HEADER_CONTENT_TYPE, uri);
    OneLineRequest(HTTP_HEADER_RANGE, uri);
    var tail := ["", Lower(uri), ""];
    assert Fields(a) == ["GET"] + (["\n"] + ([""] + tail));
    assert Fields(b) == ["GET"] + ([""] + (["\n"] + tail));
    NewlineMoves("GET", tail);
  }

  /** Exactly the `x-emc` headers are covered by the signature, each in its signed form. */
  lemma EmcHeadersAreCovered(headers: seq<string>, line: string)
    ensures line in SignedLines(headers) <==> IsEmc(line) && exists i :: 0 <= i < |headers| && Line(headers[i]) == line
  {
    EmcCount(Sort(Lines(headers)), line);
    SortSorts(Lines(headers));
    assert line in SignedLines(headers) <==> multiset(SignedLines(headers))[line] > 0;
    assert line in Lines(headers) <==> multiset(Lines(headers))[line] > 0;
    if exists i :: 0 <= i < |headers| && Line(headers[i]) == line {
      var i :| 0 <= i < |headers| && Line(headers[i]) == line;
      assert Lines(headers)[i] == line;
    }
  }

  // ---------------------------------------------------------------- the order of headers does not count

  lemma {:induction false} EmcCount(lines: seq<string>, l: string)
    ensures multiset(EmcOnly(lines))[l] == if IsEmc(l) then multiset(lines)[l] else 0
  {
    if lines != [] {
      EmcCount(lines[1..], l);
      assert lines == [lines[0]] + lines[1..];
    }
  }

  lemma {:induction false} EmcOnlySorted(lines: seq<string>)
    requires Sorted(lines)
    ensures Sorted(EmcOnly(lines))
  {
    if lines != [] {
      EmcOnlySorted(lines[1..]);
      var rest := EmcOnly(lines[1..]);
      forall j | 0 <= j < |rest|
        ensures Leq(lines[0], rest[j])
      {
        assert rest[j] in lines[1..];
      }
    }
  }

  /** Keeping the `x-emc` lines may be done before or after sorting. */
  lemma FilterThenSort(lines: seq<string>)
    ensures EmcOnly(Sort(lines)) == Sort(EmcOnly(lines))
  {
    SortSorts(lines);
    SortSorts(EmcOnly(lines));
    EmcOnlySorted(Sort(lines));
    var p, q := multiset(EmcOnly(Sort(lines))), multiset(EmcOnly(lines));
    forall l
      ensures p[l] == q[l]
    {
      EmcCount(lines, l);
      EmcCount(Sort(lines), l);
    }
    assert p == q;
    SortedPermutationIsUnique(EmcOnly(Sort(lines)), Sort(EmcOnly(lines)));
  }

  lemma SignedLinesCompare(a: seq<string>, b: seq<string>)
    ensures SignedLines(a) == SignedLines(b) <==> multiset(EmcOnly(Lines(a))) == multiset(EmcOnly(Lines(b)))
  {
    FilterThenSort(Lines(a));
    FilterThenSort(Lines(b));
    SortOfPermutation(EmcOnly(Lines(a)), EmcOnly(Lines(b)));
  }

  // ---------------------------------------------------------------- the length of the string

  function Weight(lines: seq<string>): nat {
    if lines == [] then 0 else |lines[0]| + 1 + Weight(lines[1..])
  }

  lemma {:induction false} PrefixedLength(lines: seq<string>)
    ensures |Prefixed("\n", lines)| == Weight(lines)
  {
    if lines != [] { PrefixedLength(lines[1..]); }
  }

  lemma {:induction false} InsertWeight(x: string, lines: seq<string>)
    ensures Weight(Insert(x, lines)) == |x| + 1 + Weight(lines)
  {
    if lines != [] && !Leq(x, lines[0]) {
      InsertWeight(x, lines[1..]);
      assert Insert(x, lines)[1..] == Insert(x, lines[1..]);
    } else {
      assert Insert(x, lines)[1..] == lines;
    }
  }

  lemma {:induction false} SortWeight(lines: seq<string>)
    ensures Weight(Sort(lines)) == Weight(lines)
  {
    if lines != [] {
      SortWeight(lines[1..]);
      InsertWeight(lines[0], Sort(lines[1..]));
    }
  }

  /** What the headers contribute to the length of the string, a newline counted for each line. */
  function EmcWeight(headers: seq<string>): nat {
    if headers == [] then 0
    else (if IsEmc(Line(headers[0])) then |Line(headers[0])| + 1 else 0) + EmcWeight(headers[1..])
  }

  lemma {:induction false} EmcWeightIs(headers: seq<string>)
    ensures Weight(EmcOnly(Lines(headers))) == EmcWeight(headers)
  {
    hide Line;
    if headers != [] {
      EmcWeightIs(headers[1..]);
      assert Lines(headers)[1..] == Lines(headers[1..]);
      assert IsEmc(Line(headers[0])) ==> EmcOnly(Lines(headers))[1..] == EmcOnly(Lines(headers[1..]));
    }
  }

  lemma {:induction false} EmcWeightAppend(a: seq<string>, b: seq<string>)
    ensures EmcWeight(a + b) == EmcWeight(a) + EmcWeight(b)
  {
    hide Line;
    if a == [] {
      assert a + b == b;
    } else {
      assert (a + b)[1..] == a[1..] + b;
      EmcWeightAppend(a[1..], b);
    }
  }

  lemma SignedWeight(headers: seq<string>)
    ensures Weight(SignedLines(headers)) == EmcWeight(headers)
    ensures SignedLines(headers) == [] || EmcWeight(headers) > 1
  {
    hide Lines, EmcOnly, Sort;
    FilterThenSort(Lines(headers));
    SortWeight(EmcOnly(Lines(headers)));
    EmcWeightIs(headers);
    var lines := SignedLines(headers);
    if lines != [] { assert IsEmc(lines[0]) by { assert lines[0] in lines; } }
  }

  function FixedLength(r: Request): nat {
    |MethodName(r.verb)| + |ContentType(r)| + |Range(r)| + |Date(r)| + |r.uri| + 5
  }

  lemma JoinLength(parts: seq<string>)
    requires parts != []
    ensures |Join("\n", parts)| + 1 == Weight(parts)
  {
    PrefixedLength(parts[1..]);
  }

  lemma WeightCons(first: string, rest: seq<string>)
    ensures Weight([first] + rest) == |first| + 1 + Weight(rest)
  {
    assert ([first] + rest)[1..] == rest;
  }

  lemma FiveWeight(a: string, b: string, c: string, d: string, e: string, rest: seq<string>)
    ensures Weight([a, b, c, d, e] + rest) == |a| + |b| + |c| + |d| + |e| + 5 + Weight(rest)
  {
    hide Weight;
    var s4 := [e] + rest;
    var s3 := [d] + s4;
    var s2 := [c] + s3;
    var s1 := [b] + s2;
    assert [a, b, c, d, e] + rest == [a] + s1;
    WeightCons(a, s1);
    WeightCons(b, s2);
    WeightCons(c, s3);
    WeightCons(d, s4);
    WeightCons(e, rest);
  }

  /** The length of the string is that of the fixed fields and of the signed lines. */
  lemma StringLength(r: Request)
    ensures |StringToSign(r)| == FixedLength(r) + (if EmcWeight(r.headers) == 0 then 0 else EmcWeight(r.headers) - 1)
  {
    hide ContentType, Range, Date, SignedLines, MethodName, EmcWeight;
    var lines := SignedLines(r.headers);
    SignedWeight(r.headers);
    JoinLength(Fields(r));
    FiveWeight(MethodName(r.verb), ContentType(r), Range(r), Date(r), Lower(r.uri),
               if lines == [] then [""] else lines);
    var one: seq<string> := [""];
    assert Weight(one) == 1 by { assert one[1..] == []; }
  }

  /** A longer list of signed headers makes a longer string, if nothing else gets shorter. */
  lemma HeavierIsLonger(a: Request, b: Request)
    requires FixedLength(a) <= FixedLength(b) && EmcWeight(a.headers) < EmcWeight(b.headers) && EmcWeight(b.headers) > 1
    ensures |StringToSign(a)| < |StringToSign(b)|
  {
    hide FixedLength, EmcWeight, StringToSign;
    StringLength(a);
    StringLength(b);
  }

  lemma {:induction false} NormalizeKeepsInk(s: string, k: nat)
    requires k <= |s| && forall i :: 0 <= i < k ==> s[i] != ' ' && s[i] != ':'
    ensures s[..k] <= Normalize(s)
  {
    if k > 0 {
      NormalizeKeepsInk(s[1..], k - 1);
      assert s[..k] == [s[0]] + s[1..][..k - 1];
    }
  }

  /** A header with a name that begins with `x-emc`, in any case, is signed. */
  lemma EmcNamed(header: string, name: string)
    requires HasName(header, name) && "x-emc" <= name
    ensures IsEmc(Line(header))
  {
    var lowered := LowerHeader(header);
    forall k: nat | k < 5
      ensures header[k] != ':' && ToLower(header[k]) == "x-emc"[k]
    {
      assert Lower(header[..|name|])[k] == ToLower(header[k]);
      assert Lower(name)[k] == ToLower(name[k]) && name[k] == "x-emc"[k];
    }
    forall k: nat | k < 5
      ensures lowered[k] == "x-emc"[k]
    {
      LowerHeaderAt(header, k);
      assert ':' !in header[..k + 1];
    }
    NormalizeKeepsInk(lowered, 5);
    assert lowered[..5] == "x-emc";
  }

  // ---------------------------------------------------------------- congruence

  /** One header written in two ways: another case of the name, other spaces that do not matter. */
  ghost predicate SameHeader(h: string, g: string) {
    Interchangeable(LowerHeader(h), LowerHeader(g))
  }

  /** `b` is a rearrangement of `a` with every header written in its own way. */
  ghost predicate Rearranged(a: seq<string>, b: seq<string>) {
    exists c: seq<string> :: multiset(c) == multiset(b) && |c| == |a| && forall i :: 0 <= i < |a| ==>
        SameHeader(a[i], c[i])
  }

  lemma SameHeaderSameLine(h: string, g: string)
    ensures SameHeader(h, g) <==> Line(h) == Line(g)
  {
    NormalizeDecidesInterchange(LowerHeader(h), LowerHeader(g));
  }

  function Without(lines: seq<string>, k: nat): seq<string>
    requires k < |lines|
  {
    lines[..k] + lines[k + 1..]
  }

  lemma PullOut(lines: seq<string>, k: nat)
    requires k < |lines|
    ensures multiset(lines) == multiset{lines[k]} + multiset(Without(lines, k))
  {
    assert lines == lines[..k] + [lines[k]] + lines[k + 1..];
  }

  lemma LinesWithout(headers: seq<string>, k: nat)
    requires k < |headers|
    ensures Lines(Without(headers, k)) == Without(Lines(headers), k)
  {
  }

  lemma Cancel(x: string, a: multiset<string>, b: multiset<string>)
    requires multiset{x} + a == multiset{x} + b
    ensures a == b
  {
    forall l
      ensures a[l] == b[l]
    {
      assert (multiset{x} + a)[l] == (multiset{x} + b)[l];
    }
  }

  lemma MatchFirst(a: seq<string>, b: seq<string>) returns (k: nat)
    requires a != [] && multiset(a) == multiset(b)
    ensures k < |b| && b[k] == a[0] && multiset(Without(a, 0)) == multiset(Without(b, k))
  {
    assert a[0] in multiset(b);
    k :| k < |b| && b[k] == a[0];
    PullOut(a, 0);
    PullOut(b, k);
    Cancel(a[0], multiset(Without(a, 0)), multiset(Without(b, k)));
  }

  lemma {:induction false} LinesOfPermutation(a: seq<string>, b: seq<string>)
    requires multiset(a) == multiset(b)
    ensures multiset(Lines(a)) == multiset(Lines(b))
    decreases |a|
  {
    if a == [] {
      assert |multiset(b)| == |b|;
    } else {
      var k := MatchFirst(a, b);
      LinesOfPermutation(Without(a, 0), Without(b, k));
      LinesWithout(a, 0);
      LinesWithout(b, k);
      PullOut(Lines(a), 0);
      PullOut(Lines(b), k);
    }
  }

  /** Client and server may order, case and space the headers differently and still sign the same
      string, as long as the values they look up are the same. No text is excluded. */
  lemma RearrangedRequestsSignAlike(a: Request, b: Request)
    requires a.verb == b.verb && Lower(a.uri) == Lower(b.uri)
    requires ContentType(a) == ContentType(b) && Range(a) == Range(b) && Date(a) == Date(b)
    requires Rearranged(a.headers, b.headers)
    ensures StringToSign(a) == StringToSign(b)
  {
    LinesOfRearrangement(a.headers, b.headers);
    SortOfPermutation(Lines(a.headers), Lines(b.headers));
    assert SignedLines(a.headers) == SignedLines(b.headers);
    assert Fields(a) == Fields(b);
  }

  lemma LinesOfRearrangement(a: seq<string>, b: seq<string>)
    requires Rearranged(a, b)
    ensures multiset(Lines(a)) == multiset(Lines(b))
  {
    hide Line, SameHeader;
    var c: seq<string> :| multiset(c) == multiset(b) && |c| == |a| && forall i :: 0 <= i < |a| ==>
        SameHeader(a[i], c[i]);
    forall i | 0 <= i < |c|
      ensures Line(a[i]) == Line(c[i])
    {
      SameHeaderSameLine(a[i], c[i]);
    }
    assert Lines(a) == Lines(c);
    LinesOfPermutation(c, b);
  }

  // ---------------------------------------------------------------- the code

  /** `strdup`, lower-case, normalise: one entry of the sorted array. */
  method SignedForm(header: string) returns (line: string)
    requires NulFree(header) && ':' in header
    ensures line == Line(header) && NulFree(line)
  {
    var copy := Strdup(header);
    assert header[IndexOf(header, ':')] == ':';
    LowercaseHeader(copy);
    NormalizeWhitespace(copy);
    var n := Strlen(copy);
    line := copy[..n];
  }

  method SortedHeaders(headers: seq<string>) returns (lines: array<string>)
    requires forall h :: h in headers ==> NulFree(h) && ':' in h
    ensures fresh(lines) && lines[..] == Sort(Lines(headers))
    ensures Ascending(lines[..])
    ensures forall i :: 0 <= i < lines.Length ==> NulFree(lines[i])
  {
    lines := new string[|headers|](_ => "");
    var i := 0;
    while i < |headers|
      invariant 0 <= i <= |headers|
      invariant forall k :: 0 <= k < i ==> lines[k] == Line(headers[k]) && NulFree(lines[k])
    {
      assert headers[i] in headers;
      lines[i] := SignedForm(headers[i]);
      i := i + 1;
    }
    assert lines[..] == Lines(headers);
    assert forall l :: l in lines[..] ==> NulFree(l);
    QSort(lines);
    forall k | 0 <= k < lines.Length
      ensures NulFree(lines[k])
    {
      assert lines[k] in multiset(lines[..]);
    }
  }

  ghost function Begun(fields: seq<string>): string {
    if fields == [] then "" else Join("\n", fields) + "\n"
  }

  lemma BegunMore(fields: seq<string>, value: string)
    ensures Begun(fields + [value]) == Begun(fields) + value + "\n"
  {
    if fields != [] {
      JoinAppend("\n", fields, [value]);
    } else {
      assert fields + [value] == [value];
    }
  }

  /** One fixed line: its value, if there is one, and a newline. */
  method AppendField(b: CBuffer, value: Option<string>, ghost fields: seq<string>)
    requires b.Valid() && (value.Some? ==> NulFree(value.value))
    requires b.text == Begun(fields)
    modifies b.Repr
    ensures b.Valid() && fresh(b.Repr - old(b.Repr))
    ensures b.text == Begun(fields + [OrEmpty(value)])
  {
    hide Begun;
    BegunMore(fields, OrEmpty(value));
    if value.Some? {
      b.Append(value.value);
    } else {
      assert b.text + "" == b.text;
    }
    b.Append("\n");
  }

  /** What the loop over the sorted headers still has to append. */
  ghost function Remaining(lines: seq<string>, firstheader: bool): string {
    if lines == [] then ""
    else if IsEmc(lines[0]) then (if firstheader then "" else "\n") + lines[0] + Remaining(lines[1..], false)
    else Remaining(lines[1..], firstheader)
  }

  lemma {:induction false} RemainingIsJoin(lines: seq<string>)
    ensures Remaining(lines, true) == Join("\n", EmcOnly(lines))
    ensures Remaining(lines, false) == Prefixed("\n", EmcOnly(lines))
  {
    hide IsEmc;
    if lines != [] {
      RemainingIsJoin(lines[1..]);
      if IsEmc(lines[0]) {
        var rest := EmcOnly(lines[1..]);
        assert EmcOnly(lines) == [lines[0]] + rest;
        PrefixedCons("\n", lines[0], rest);
        assert ([lines[0]] + rest)[1..] == rest;
      }
    }
  }

  lemma RemainingAt(lines: seq<string>, i: nat, firstheader: bool)
    requires i < |lines|
    ensures Remaining(lines[i..], firstheader) ==
            if IsEmc(lines[i]) then (if firstheader then "" else "\n") + lines[i] + Remaining(lines[i + 1..], false)
            else Remaining(lines[i + 1..], firstheader)
  {
    assert lines[i..][1..] == lines[i + 1..];
  }

  method AppendLine(b: CBuffer, firstheader: bool, line: string)
    requires b.Valid() && NulFree(line)
    modifies b.Repr
    ensures b.Valid() && fresh(b.Repr - old(b.Repr))
    ensures forall rest :: b.text + rest == old(b.text) + ((if firstheader then "" else "\n") + line + rest)
  {
    if !firstheader {
      b.Append("\n");
    }
    b.Append(line);
  }

  method AppendSignedLines(b: CBuffer, lines: seq<string>)
    requires b.Valid() && forall i :: 0 <= i < |lines| ==> NulFree(lines[i])
    modifies b.Repr
    ensures b.Valid() && fresh(b.Repr - old(b.Repr))
    ensures b.text == old(b.text) + Join("\n", EmcOnly(lines))
  {
    var firstheader := true;
    var i := 0;
    assert lines[0..] == lines;
    while i < |lines|
      invariant 0 <= i <= |lines|
      invariant b.Valid() && fresh(b.Repr - old(b.Repr))
      invariant b.text + Remaining(lines[i..], firstheader) == old(b.text) + Remaining(lines, true)
    {
      RemainingAt(lines, i, firstheader);
      if "x-emc" <= lines[i] {
        AppendLine(b, firstheader, lines[i]);
        firstheader := false;
      }
      i := i + 1;
    }
    RemainingIsJoin(lines);
  }

  method LowerUri(uri: string) returns (lower: string)
    requires NulFree(uri)
    ensures lower == Lower(uri) && NulFree(lower)
  {
    var copy := Strdup(uri);
    Lowercase(copy);
    LowerAbsent(uri, NUL);
    assert copy[|uri|] == (uri + [NUL])[|uri|];
    var n := Strlen(copy);
    lower := copy[..n];
  }

  lemma LookedUpNulFree(r: Request, name: string)
    requires WellFormed(r) && HeaderValue(r.headers, name).Some?
    ensures NulFree(HeaderValue(r.headers, name).value)
  {
    HeaderValueFromLine(r.headers, name, NUL);
  }

  method Lookup(r: Request, name: string) returns (value: Option<string>)
    requires WellFormed(r)
    ensures value == HeaderValue(r.headers, name)
    ensures value.Some? ==> NulFree(value.value)
  {
    value := HeaderValue(r.headers, name);
    if value.Some? { LookedUpNulFree(r, name); }
  }

  lemma StringToSignIs(r: Request)
    ensures StringToSign(r) ==
            Begun([MethodName(r.verb), ContentType(r), Range(r), Date(r), Lower(r.uri)])
                + Join("\n", SignedLines(r.headers))
  {
    hide ContentType, Range, Date, SignedLines, MethodName;
    var signed := SignedLines(r.headers);
    var five := [MethodName(r.verb), ContentType(r), Range(r), Date(r), Lower(r.uri)];
    JoinAppend("\n", five, if signed == [] then [""] else signed);
  }

  /** The buffer of the original: the fixed lines first, then the sorted `x-emc` headers. */
  method CanonicalizeRequest(request: RestRequest) returns (hash: string)
    requires WellFormed(request.View())
    ensures hash == StringToSign(request.View())
  {
    hide HeaderValue, EmcOnly, Sort, Lines, Join, Begun, Lower, StringToSign;
    var r := request.View();
    var lines := SortedHeaders(request.headers);
    var contentType := Lookup(r, HTTP_HEADER_CONTENT_TYPE);
    var range := Lookup(r, HTTP_HEADER_RANGE);
    if range.None? {
      range := Lookup(r, HTTP_HEADER_CONTENT_RANGE);
    }
    var date := Lookup(r, HTTP_HEADER_DATE);
    var loweruri := LowerUri(r.uri);
    hash := WriteFields(MethodName(r.verb), contentType, range, date, loweruri, lines[..]);
    StringToSignIs(r);
  }

  /** The three looked-up values. */
  method AppendValues(b: CBuffer, contentType: Option<string>, range: Option<string>, date: Option<string>,
      ghost fields: seq<string>)
    requires b.Valid() && b.text == Begun(fields)
    requires (contentType.Some? ==> NulFree(contentType.value)) && (range.Some? ==> NulFree(range.value))
    requires date.Some? ==> NulFree(date.value)
    modifies b.Repr
    ensures b.Valid() && fresh(b.Repr - old(b.Repr))
    ensures b.text == Begun(fields + [OrEmpty(contentType)] + [OrEmpty(range)] + [OrEmpty(date)])
  {
    hide Begun, OrEmpty;
    ghost var second := fields + [OrEmpty(contentType)];
    AppendField(b, contentType, fields);
    AppendField(b, range, second);
    AppendField(b, date, second + [OrEmpty(range)]);
  }

  lemma OrEmptySome(value: string)
    ensures OrEmpty(Some(value)) == value
  {
  }

  method WriteFields(verb: string, contentType: Option<string>, range: Option<string>, date: Option<string>,
                     loweruri: string, lines: seq<string>)
    returns (hash: string)
    requires NulFree(verb) && NulFree(loweruri) && forall i :: 0 <= i < |lines| ==> NulFree(lines[i])
    requires (contentType.Some? ==> NulFree(contentType.value)) && (range.Some? ==> NulFree(range.value))
    requires date.Some? ==> NulFree(date.value)
    ensures hash == Begun([verb, OrEmpty(contentType), OrEmpty(range), OrEmpty(date), loweruri])
                    + Join("\n", EmcOnly(lines))
  {
    var b := new CBuffer();
    assert b.text == Begun([]);
    hide Begun, Join, EmcOnly, OrEmpty;
    ghost var f1 := [] + [verb];
    ghost var f2 := f1 + [OrEmpty(contentType)];
    ghost var f3 := f2 + [OrEmpty(range)];
    ghost var f4 := f3 + [OrEmpty(date)];
    assert OrEmpty(Some(verb)) == verb && OrEmpty(Some(loweruri)) == loweruri
        by { OrEmptySome(verb); OrEmptySome(loweruri); }
    AppendField(b, Some(verb), []);
    AppendValues(b, contentType, range, date, f1);
    AppendField(b, Some(loweruri), f4);
    assert f4 + [loweruri] == [verb, OrEmpty(contentType), OrEmpty(range), OrEmpty(date), loweruri];
    AppendSignedLines(b, lines);
    hash := b.Text();
  }
}
