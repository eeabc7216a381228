/** Listable tags: `AtmosUtil_set_tags_header` joins them with a comma and a space; the loop of
    `AtmosFilter_get_listable_tags` takes the answer apart again. */
module TagCodec {
  import opened CStrings
  import opened PercentEncoding
  import opened StringBuffer
  import opened Rest

  const ATMOS_HEADER_TAGS := "x-emc-tags"
  const GROWTH: nat := 100

  // ---------------------------------------------------------------- printing

  function TagText(tag: string, utf8: bool): string { if utf8 then Encode(tag) else tag }

  function TagTexts(tags: seq<string>, utf8: bool): (r: seq<string>)
    ensures |r| == |tags| && forall i :: 0 <= i < |tags| ==> r[i] == TagText(tags[i], utf8)
  {
    seq(|tags|, i requires 0 <= i < |tags| => TagText(tags[i], utf8))
  }

  function TagsHeader(tags: seq<string>, utf8: bool): seq<string> {
    if tags == [] then [] else [ATMOS_HEADER_TAGS + ": " + Join(", ", TagTexts(tags, utf8))]
  }

  /** What the loop appends from tag `i` on. */
  function TagsFrom(tags: seq<string>, utf8: bool, i: nat): string
    requires i <= |tags|
    decreases |tags| - i
  {
    if i == |tags| then "" else (if i > 0 then ", " else "") + TagText(tags[i], utf8) + TagsFrom(tags, utf8, i + 1)
  }

  lemma {:induction false} TagsTail(tags: seq<string>, utf8: bool, i: nat)
    requires 0 < i <= |tags|
    ensures TagsFrom(tags, utf8, i) == Prefixed(", ", TagTexts(tags, utf8)[i..])
    decreases |tags| - i
  {
    var ts := TagTexts(tags, utf8);
    if i < |tags| {
      TagsTail(tags, utf8, i + 1);
      PrefixedCons(", ", ts[i], ts[i + 1..]);
      assert ts[i..] == [ts[i]] + ts[i + 1..];
    } else {
      assert ts[i..] == [];
    }
  }

  lemma TagsFromJoin(tags: seq<string>, utf8: bool)
    requires tags != []
    ensures TagsFrom(tags, utf8, 0) == Join(", ", TagTexts(tags, utf8))
  {
    TagsTail(tags, utf8, 1);
    assert TagsFrom(tags, utf8, 0) == "" + TagText(tags[0], utf8) + TagsFrom(tags, utf8, 1);
    assert "" + TagText(tags[0], utf8) == TagText(tags[0], utf8);
  }

  method AppendTag(b: CBuffer, tag: string, utf8: bool, first: bool)
    requires b.Valid() && NulFree(tag)
    modifies b.Repr
    ensures b.Valid() && fresh(b.Repr - old(b.Repr))
    ensures b.text == old(b.text) + ((if first then "" else ", ") + TagText(tag, utf8))
  {
    if !first {
      b.Append(", ");
    }
    if utf8 {
      b.AppendUtf8(tag);
    } else {
      b.Append(tag);
    }
    Assoc(old(b.text), if first then "" else ", ", TagText(tag, utf8));
  }

  method SetTagsHeader(tags: seq<string>, utf8: bool, request: RestRequest)
    requires forall i :: 0 <= i < |tags| ==> NulFree(tags[i])
    modifies request`headers
    ensures request.headers == old(request.headers) + TagsHeader(tags, utf8)
  {
    if |tags| < 1 {
      assert request.headers == request.headers + [];
      return;
    }
    var header := TagsHeaderLine(tags, utf8);
    request.AddHeader(header);
  }

  method TagsHeaderLine(tags: seq<string>, utf8: bool) returns (header: string)
    requires tags != [] && forall i :: 0 <= i < |tags| ==> NulFree(tags[i])
    ensures header == ATMOS_HEADER_TAGS + ": " + Join(", ", TagTexts(tags, utf8))
  {
    TagsFromJoin(tags, utf8);
    var b := new CBuffer();
    b.Append(ATMOS_HEADER_TAGS + ": ");
    AppendTags(b, tags, utf8);
    header := b.Text();
  }

  method AppendTags(b: CBuffer, tags: seq<string>, utf8: bool)
    requires b.Valid() && forall i :: 0 <= i < |tags| ==> NulFree(tags[i])
    modifies b.Repr
    ensures b.Valid() && fresh(b.Repr - old(b.Repr))
    ensures b.text == old(b.text) + TagsFrom(tags, utf8, 0)
  {
    hide TagText;
    var i := 0;
    while i < |tags|
      invariant 0 <= i <= |tags|
      invariant b.Valid() && fresh(b.Repr - old(b.Repr))
      invariant b.text + TagsFrom(tags, utf8, i) == old(b.text) + TagsFrom(tags, utf8, 0)
    {
      Assoc(b.text, (if i == 0 then "" else ", ") + TagText(tags[i], utf8), TagsFrom(tags, utf8, i + 1));
      AppendTag(b, tags[i], utf8, i == 0);
      i := i + 1;
    }
    assert b.text + "" == b.text;
  }

  // ---------------------------------------------------------------- the splitter

  /** `strchr(value + i, ',')`, or the end of the text. */
  function CommaFrom(value: string, i: nat): (c: nat)
    requires i <= |value|
    ensures i <= c <= |value|
    ensures c < |value| ==> value[c] == ','
    ensures forall k :: i <= k < c ==> value[k] != ','
    decreases |value| - i
  {
    if i == |value| || value[i] == ',' then i else CommaFrom(value, i + 1)
  }

  /** It is the search of the list parsers, at an offset. */
  lemma CommaFromIsIndexOf(value: string, i: nat)
    requires i <= |value|
    ensures CommaFrom(value, i) == i + IndexOf(value[i..], ',')
  {
    var rest := value[i..];
    var k := CommaFrom(value, i) - i;
    assert forall j :: 0 <= j < k ==> rest[..k][j] == value[i + j];
    IndexOfFirst(rest, ',', k);
  }

  /** The tag between `i` and the comma at `c`. A length of 0 makes `curl_easy_unescape` take the
      whole rest of the text. */
  function TagAt(value: string, i: nat, c: nat, utf8: bool): string
    requires i <= c <= |value|
  {
    if utf8 then CStringOf(Decode(if c == i then value[i..] else value[i..c])) else value[i..c]
  }

  /** The tags the loop stores from index `i` on. */
  function TagsAhead(value: string, i: nat, utf8: bool): seq<string>
    requires i <= |value| + 1
    decreases |value| + 1 - i
  {
    if i >= |value| then []
    else if value[i] == ' ' then TagsAhead(value, i + 1, utf8)
    else
      var c := CommaFrom(value, i);
      [TagAt(value, i, c, utf8)] + TagsAhead(value, c + 1, utf8)
  }

  function Tags(value: string, utf8: bool): seq<string> { TagsAhead(value, 0, utf8) }

  lemma TagsAheadStep(t: string, i: nat, c: nat, utf8: bool)
    requires i < |t| && t[i] != ' ' && c == CommaFrom(t, i)
    ensures TagsAhead(t, i, utf8) == [TagAt(t, i, c, utf8)] + TagsAhead(t, c + 1, utf8)
  {
  }

  /** The array holds the tags found so far and has grown by whole steps, no more than needed. */
  ghost predicate Held(tags: array<string>, count: nat, done: seq<string>)
    reads tags
  {
    && count == |done| <= tags.Length && tags[..count] == done
    && tags.Length % GROWTH == 0 && tags.Length > 0
    && (count == 0 ==> tags.Length == GROWTH) && (count > 0 ==> tags.Length < count + GROWTH)
  }

  method Store(tags: array<string>, count: nat, tag: string, ghost done: seq<string>)
    returns (grown: array<string>)
    requires Held(tags, count, done)
    modifies tags
    ensures Held(grown, count + 1, done + [tag]) && (grown == tags || fresh(grown))
  {
    grown := tags;
    if count + 1 > tags.Length {
      grown := new string[tags.Length + GROWTH](i requires 0 <= i < tags.Length + GROWTH reads tags =>
        if i < tags.Length then tags[i] else "");
      assert grown[..count] == tags[..count];
    }
    grown[count] := tag;
    assert grown[..count + 1] == done + [tag];
  }

  /** With what is still ahead of `tag`, the tags `done` are all tags. */
  ghost predicate Splitting(value: string, tag: nat, utf8: bool, done: seq<string>) {
    tag <= |value| + 1 && done + TagsAhead(value, tag, utf8) == Tags(value, utf8)
  }

  lemma SplittingSkips(value: string, tag: nat, utf8: bool, done: seq<string>)
    requires Splitting(value, tag, utf8, done) && tag < |value| && value[tag] == ' '
    ensures Splitting(value, tag + 1, utf8, done)
  {
  }

  lemma SplittingTakes(value: string, tag: nat, comma: nat, utf8: bool, done: seq<string>)
    requires Splitting(value, tag, utf8, done) && tag < |value| && value[tag] != ' ' && comma == CommaFrom(value, tag)
    ensures Splitting(value, comma + 1, utf8, done + [TagAt(value, tag, comma, utf8)])
  {
    TagsAheadStep(value, tag, comma, utf8);
    Regroup(done, TagAt(value, tag, comma, utf8), TagsAhead(value, comma + 1, utf8));
  }

  lemma Regroup(done: seq<string>, tag: string, rest: seq<string>)
    ensures done + ([tag] + rest) == (done + [tag]) + rest
  {
  }

  method ParseTagList(value: string, utf8: bool) returns (tags: array<string>, tag_count: nat, ghost done: seq<string>)
    ensures fresh(tags) && Held(tags, tag_count, done)
    ensures done == Tags(value, utf8)
  {
    tags := new string[GROWTH](_ => "");
    tag_count := 0;
    done := [];
    var tag := 0;
    while tag < |value|
      invariant fresh(tags) && Held(tags, tag_count, done)
      invariant Splitting(value, tag, utf8, done)
      decreases |value| + 1 - tag
    {
      hide TagsAhead, TagAt, CommaFrom;
      if value[tag] == ' ' {
        SplittingSkips(value, tag, utf8, done);
        tag := tag + 1;
        continue;
      }
      var comma := CommaFrom(value, tag);
      var found := TagAt(value, tag, comma, utf8);
      SplittingTakes(value, tag, comma, utf8, done);
      tags := Store(tags, tag_count, found, done);
      done := done + [found];
      tag_count := tag_count + 1;
      tag := comma + 1;
    }
    assert done + [] == done;
  }

  method ParseTags(header: Option<string>, utf8: bool) returns (tags: array<string>, tag_count: nat)
    ensures fresh(tags) && tag_count <= tags.Length
    ensures tags[..tag_count] == if header.Some? then Tags(header.value, utf8) else []
    ensures tags.Length % GROWTH == 0 && tags.Length > 0
    ensures tag_count == 0 ==> tags.Length == GROWTH
    ensures tag_count > 0 ==> tags.Length < tag_count + GROWTH
  {
    if header.None? {
      tags := new string[GROWTH](_ => "");
      tag_count := 0;
    } else {
      ghost var done;
      tags, tag_count, done := ParseTagList(header.value, utf8);
    }
  }

  // ---------------------------------------------------------------- what the splitter returns

  /** The parts without the spaces in front of them, an empty last one left out. */
  function Trimmed(parts: seq<string>): seq<string>
    requires parts != []
  {
    if |parts| == 1 then (if SkipSpaces(parts[0]) == "" then [] else [SkipSpaces(parts[0])])
    else [SkipSpaces(parts[0])] + Trimmed(parts[1..])
  }

  lemma SplitAt(rest: string, k: nat)
    requires k <= |rest| && (k < |rest| ==> rest[k] == ',') && forall i :: 0 <= i < k ==> rest[i] != ','
    ensures Split(rest, ',') == if k == |rest| then [rest] else [rest[..k]] + Split(rest[k + 1..], ',')
  {
    assert forall i :: 0 <= i < k ==> rest[..k][i] == rest[i];
    IndexOfFirst(rest, ',', k);
  }

  lemma SplitAtComma(s: string, from: nat, c: nat)
    requires from <= c <= |s| && (c < |s| ==> s[c] == ',') && forall k :: from <= k < c ==> s[k] != ','
    ensures c == |s| ==> Split(s[from..], ',') == [s[from..c]]
    ensures c < |s| ==> Split(s[from..], ',') == [s[from..c]] + Split(s[c + 1..], ',')
  {
    var rest := s[from..];
    SplitAt(rest, c - from);
    assert rest[..c - from] == s[from..c];
    if c < |s| { assert rest[c - from + 1..] == s[c + 1..]; } else { assert rest == s[from..c]; }
  }

  lemma TrimmedPart(s: string, from: nat, i: nat, c: nat)
    requires from <= i <= c <= |s| && (forall k :: from <= k < i ==> s[k] == ' ') && (i < c ==> s[i] != ' ')
    ensures SkipSpaces(s[from..c]) == s[i..c]
  {
    var part := s[from..c];
    SkipSpacesIs(part, i - from);
    assert part[i - from..] == s[i..c];
  }

  lemma TrimmedAtComma(s: string, from: nat, i: nat, c: nat)
    requires from <= i <= c < |s| && (forall k :: from <= k < i ==> s[k] == ' ') && (i < c ==> s[i] != ' ')
    requires s[c] == ',' && forall k :: from <= k < c ==> s[k] != ','
    ensures Trimmed(Split(s[from..], ',')) == [s[i..c]] + Trimmed(Split(s[c + 1..], ','))
  {
    SplitAtComma(s, from, c);
    TrimmedPart(s, from, i, c);
    TrimmedCons(s[from..c], Split(s[c + 1..], ','));
  }

  lemma TrimmedAtEnd(s: string, from: nat, i: nat)
    requires from <= i <= |s| && (forall k :: from <= k < i ==> s[k] == ' ') && (i < |s| ==> s[i] != ' ')
    requires forall k :: from <= k < |s| ==> s[k] != ','
    ensures Trimmed(Split(s[from..], ',')) == if i == |s| then [] else [s[i..]]
  {
    SplitAtComma(s, from, |s|);
    TrimmedPart(s, from, i, |s|);
    assert s[i..|s|] == s[i..];
  }

  lemma TagsAheadAt(s: string, i: nat, c: nat)
    requires i < |s| && s[i] != ' ' && c == CommaFrom(s, i)
    ensures TagsAhead(s, i, false) == [s[i..c]] + TagsAhead(s, c + 1, false)
    ensures c == |s| ==> TagsAhead(s, i, false) == [s[i..]]
  {
    assert [s[i..c]] + [] == [s[i..c]];
    assert s[i..|s|] == s[i..];
  }

  lemma TrimmedStep(s: string, i: nat, from: nat, c: nat)
    requires from <= i < |s| && (forall k :: from <= k < i ==> s[k] == ' ') && s[i] != ' ' && c == CommaFrom(s, i)
    requires c < |s| ==> TagsAhead(s, c + 1, false) == Trimmed(Split(s[c + 1..], ','))
    ensures TagsAhead(s, i, false) == Trimmed(Split(s[from..], ','))
  {
    TagsAheadAt(s, i, c);
    if c < |s| { TrimmedAtComma(s, from, i, c); } else { TrimmedAtEnd(s, from, i); }
  }

  lemma NothingAhead(t: string, utf8: bool)
    ensures TagsAhead(t, |t|, utf8) == []
  {
  }

  lemma {:induction false} TagsAheadAreTrimmed(s: string, i: nat, from: nat)
    requires from <= i <= |s| && forall k :: from <= k < i ==> s[k] == ' '
    ensures TagsAhead(s, i, false) == Trimmed(Split(s[from..], ','))
    decreases |s| - i
  {
    hide TagsAhead, Trimmed, Split, CommaFrom;
    if i == |s| {
      TrimmedAtEnd(s, from, i);
      NothingAhead(s, false);
    } else if s[i] == ' ' {
      SpaceAhead(s, i, false);
      TagsAheadAreTrimmed(s, i + 1, from);
    } else {
      var c := CommaFrom(s, i);
      if c < |s| { TagsAheadAreTrimmed(s, c + 1, c + 1); }
      TrimmedStep(s, i, from, c);
    }
  }

  lemma TrimmedCons(part: string, rest: seq<string>)
    requires rest != []
    ensures Trimmed([part] + rest) == [SkipSpaces(part)] + Trimmed(rest)
  {
    assert ([part] + rest)[1..] == rest;
  }

  /** In plain mode the tags are the comma-separated parts, trimmed. */
  lemma TagsAreTrimmedParts(s: string)
    ensures Tags(s, false) == Trimmed(Split(s, ','))
  {
    TagsAheadAreTrimmed(s, 0, 0);
    assert s[0..] == s;
  }

  predicate CleanTag(tag: string) { ',' !in tag && SkipSpaces(tag) == tag }

  lemma {:induction false} TrimmedAreClean(parts: seq<string>)
    requires parts != [] && AllWithout(',', parts)
    ensures forall tag :: tag in Trimmed(parts) ==> CleanTag(tag)
    ensures |Trimmed(parts)| == if SkipSpaces(parts[|parts| - 1]) == "" then |parts| - 1 else |parts|
    ensures forall i :: 0 <= i < |Trimmed(parts)| ==> Trimmed(parts)[i] == SkipSpaces(parts[i])
  {
    SkippedSpaces(parts[0]);
    if |parts| > 1 { TrimmedAreClean(parts[1..]); }
  }

  lemma CleanTagsSplit(tags: seq<string>) returns (parts: seq<string>)
    requires tags != [] && forall tag :: tag in tags ==> CleanTag(tag)
    ensures |parts| == |tags| && Split(Join(", ", tags), ',') == parts
    ensures forall i :: 0 <= i < |tags| ==> SkipSpaces(parts[i]) == tags[i]
  {
    forall i | 0 <= i < |tags|
      ensures ',' !in tags[i]
    {
      assert CleanTag(tags[i]);
    }
    SplitSpacedJoin(tags);
    parts := [tags[0]] + Spaced(tags[1..]);
    forall i | 0 <= i < |tags|
      ensures SkipSpaces(parts[i]) == tags[i]
    {
      assert CleanTag(tags[i]);
      assert i > 0 ==> parts[i] == " " + tags[i] && (" " + tags[i])[1..] == tags[i];
    }
  }

  lemma {:induction false} TrimmedIs(parts: seq<string>, tags: seq<string>)
    requires |parts| == |tags| > 0 && forall i :: 0 <= i < |tags| ==> SkipSpaces(parts[i]) == tags[i]
    ensures Trimmed(parts) == if tags[|tags| - 1] == "" then tags[..|tags| - 1] else tags
  {
    if |parts| > 1 {
      TrimmedIs(parts[1..], tags[1..]);
    }
  }

  lemma CleanTagsComeBack(tags: seq<string>)
    requires tags != [] && forall tag :: tag in tags ==> CleanTag(tag)
    ensures Tags(Join(", ", tags), false) == tags <==> tags[|tags| - 1] != ""
  {
    var parts := CleanTagsSplit(tags);
    TagsAreTrimmedParts(Join(", ", tags));
    TrimmedIs(parts, tags);
  }

  /** Joined plain tags come apart as they were exactly when no tag holds a comma or starts with a
      space and the last one is not empty. */
  lemma PlainTagsRoundTripIff(tags: seq<string>)
    requires tags != []
    ensures Tags(Join(", ", tags), false) == tags <==>
            (forall tag :: tag in tags ==> CleanTag(tag)) && tags[|tags| - 1] != ""
  {
    if Tags(Join(", ", tags), false) == tags {
      TagsAreTrimmedParts(Join(", ", tags));
      TrimmedAreClean(Split(Join(", ", tags), ','));
    }
    if forall tag :: tag in tags ==> CleanTag(tag) {
      CleanTagsComeBack(tags);
    }
  }

  // ---------------------------------------------------------------- through the header

  lemma {:induction false} LeadingSpacesSkipped(s: string, utf8: bool)
    ensures Tags(SkipSpaces(s), utf8) == Tags(s, utf8)
  {
    hide TagsAhead;
    if s != "" && s[0] == ' ' {
      LeadingSpacesSkipped(s[1..], utf8);
      SpaceAhead(s, 0, utf8);
      TagsAheadShift(" ", s[1..], 0, utf8);
      assert " " + s[1..] == s;
    }
  }

  /** A lookup of the header, and the splitter on what it finds, give the tags back under the conditions
      of the two modes. */
  lemma TagsHeaderComesBack(tags: seq<string>, utf8: bool)
    requires forall i :: 0 <= i < |tags| ==> IsCString(tags[i])
    ensures HeaderValue(TagsHeader(tags, utf8), "x-emc-tags").None? <==> tags == []
    ensures tags != [] ==>
            var value := HeaderValue(TagsHeader(tags, utf8), "x-emc-tags");
            && value.Some?
            && (Tags(value.value, utf8) == tags <==>
                if utf8 then forall i :: 0 <= i < |tags| ==> tags[i] != ""
                else (forall tag :: tag in tags ==> CleanTag(tag)) && tags[|tags| - 1] != "")
  {
    assert HeaderValue([], "x-emc-tags") == None;
    hide Tags, CleanTag, HeaderValue, IsCString;
    if tags == [] { return; }
    var text := Join(", ", TagTexts(tags, utf8));
    LineValue("x-emc-tags", text);
    LeadingSpacesSkipped(text, utf8);
    if utf8 {
      Utf8TagsRoundTripIff(tags);
    } else {
      assert TagTexts(tags, false) == tags;
      PlainTagsRoundTripIff(tags);
    }
  }

  // ---------------------------------------------------------------- percent-encoded tags

  lemma {:induction false} CommaFromShift(p: string, s: string, i: nat)
    requires i <= |s|
    ensures CommaFrom(p + s, |p| + i) == |p| + CommaFrom(s, i)
    decreases |s| - i
  {
    if i < |s| && s[i] != ',' { CommaFromShift(p, s, i + 1); }
  }

  lemma TagAtShift(p: string, s: string, i: nat, c: nat, utf8: bool)
    requires i <= c <= |s|
    ensures TagAt(p + s, |p| + i, |p| + c, utf8) == TagAt(s, i, c, utf8)
  {
    assert (p + s)[|p| + i..|p| + c] == s[i..c];
    assert (p + s)[|p| + i..] == s[i..];
  }

  lemma SameStep(t: string, k: nat, d: nat, s: string, i: nat, c: nat, utf8: bool)
    requires k < |t| && t[k] != ' ' && d == CommaFrom(t, k)
    requires i < |s| && s[i] != ' ' && c == CommaFrom(s, i)
    requires TagAt(t, k, d, utf8) == TagAt(s, i, c, utf8)
    requires TagsAhead(t, d + 1, utf8) == TagsAhead(s, c + 1, utf8)
    ensures TagsAhead(t, k, utf8) == TagsAhead(s, i, utf8)
  {
    hide TagsAhead, TagAt, CommaFrom;
    TagsAheadStep(t, k, d, utf8);
    TagsAheadStep(s, i, c, utf8);
  }

  lemma TagStepShift(p: string, s: string, i: nat, c: nat, utf8: bool)
    requires i < |s| && s[i] != ' ' && c == CommaFrom(s, i)
    requires TagsAhead(p + s, |p| + c + 1, utf8) == TagsAhead(s, c + 1, utf8)
    ensures TagsAhead(p + s, |p| + i, utf8) == TagsAhead(s, i, utf8)
  {
    hide TagsAhead, TagAt, CommaFrom;
    assert (p + s)[|p| + i] == s[i];
    CommaFromShift(p, s, i);
    TagAtShift(p, s, i, c, utf8);
    SameStep(p + s, |p| + i, |p| + c, s, i, c, utf8);
  }

  lemma TagSkipShift(p: string, s: string, i: nat, utf8: bool)
    requires i < |s| && s[i] == ' '
    requires TagsAhead(p + s, |p| + i + 1, utf8) == TagsAhead(s, i + 1, utf8)
    ensures TagsAhead(p + s, |p| + i, utf8) == TagsAhead(s, i, utf8)
  {
    assert (p + s)[|p| + i] == ' ';
  }

  /** What was read before has no influence. */
  lemma {:induction false} TagsAheadShift(p: string, s: string, i: nat, utf8: bool)
    requires i <= |s| + 1
    ensures TagsAhead(p + s, |p| + i, utf8) == TagsAhead(s, i, utf8)
    decreases |s| + 1 - i
  {
    if i < |s| {
      if s[i] == ' ' {
        TagsAheadShift(p, s, i + 1, utf8);
        TagSkipShift(p, s, i, utf8);
      } else {
        var c := CommaFrom(s, i);
        TagsAheadShift(p, s, c + 1, utf8);
        TagStepShift(p, s, i, c, utf8);
      }
    }
  }

  lemma EncodedTagFirst(tag: string, tail: string)
    requires IsCString(tag) && tag != "" && (tail == "" || tail[0] == ',')
    ensures Tags(Encode(tag) + tail, true) == [tag] + TagsAhead(Encode(tag) + tail, |Encode(tag)| + 1, true)
  {
    var e := Encode(tag);
    EncodedAlphabet(tag);
    assert forall k :: 0 <= k < |e| ==> e[k] in e;
    CommaBehind(e, tail);
    EncodedTagAlone(tag, e + tail);
    TagsAheadStep(e + tail, 0, |e|, true);
  }

  lemma CommaBehind(e: string, tail: string)
    requires (forall k :: 0 <= k < |e| ==> e[k] != ',') && (tail == "" || tail[0] == ',')
    ensures CommaFrom(e + tail, 0) == |e|
  {
    var t := e + tail;
    CommaFromIsIndexOf(t, 0);
    assert t[0..] == t;
    assert forall k :: 0 <= k < |e| ==> e[k] == t[..|e|][k];
    IndexOfFirst(t, ',', |e|);
  }

  lemma EncodedTagAlone(tag: string, t: string)
    requires IsCString(tag) && tag != "" && Encode(tag) <= t
    ensures |Encode(tag)| > 0 && TagAt(t, 0, |Encode(tag)|, true) == tag
  {
    EncodedAlphabet(tag);
    assert t[0..|Encode(tag)|] == Encode(tag);
    DecodeEncode(tag);
    IndexOfFirst(tag, NUL, |tag|);
  }

  lemma SpaceAhead(t: string, k: nat, utf8: bool)
    requires k < |t| && t[k] == ' '
    ensures TagsAhead(t, k, utf8) == TagsAhead(t, k + 1, utf8)
  {
  }

  lemma AheadOfSeparator(e: string, joined: string)
    ensures TagsAhead(e + (", " + joined), |e| + 1, true) == Tags(joined, true)
  {
    var p := e + ", ";
    Assoc(e, ", ", joined);
    SpaceAhead(p + joined, |e| + 1, true);
    TagsAheadShift(p, joined, 0, true);
  }

  lemma EncodedTagThenRest(tag: string, joined: string)
    requires IsCString(tag) && tag != ""
    ensures Tags(Encode(tag) + (", " + joined), true) == [tag] + Tags(joined, true)
  {
    EncodedTagFirst(tag, ", " + joined);
    AheadOfSeparator(Encode(tag), joined);
  }

  /** With nothing before the comma the rest of the list is decoded, comma and all. */
  lemma EmptyTagBeforeRest(joined: string)
    ensures var found := Tags(", " + joined, true);
            found != [] && found[0] == CStringOf("," + Decode(" " + joined)) && found[0] != ""
  {
    var t := ", " + joined;
    assert t[0] == ',' && CommaFrom(t, 0) == 0 && t[0..] == t;
    assert t[1..] == " " + joined;
    assert Decode(t) == "," + Decode(" " + joined);
    assert ("," + Decode(" " + joined))[0] == ',';
  }

  lemma JoinFirst(tags: seq<string>)
    requires |tags| > 1
    ensures Join(", ", TagTexts(tags, true)) == Encode(tags[0]) + (", " + Join(", ", TagTexts(tags[1..], true)))
  {
    JoinCons(", ", TagTexts(tags, true));
    assert TagTexts(tags, true)[1..] == TagTexts(tags[1..], true);
  }

  lemma OneTag(tag: string)
    requires IsCString(tag)
    ensures Tags(Encode(tag), true) == [tag] <==> tag != ""
  {
    assert Encode(tag) + "" == Encode(tag);
    if tag != "" { EncodedTagFirst(tag, ""); }
  }

  lemma FirstTag(tag: string, joined: string, rest: seq<string>)
    requires IsCString(tag)
    ensures Tags(Encode(tag) + (", " + joined), true) == [tag] + rest <==> tag != "" && Tags(joined, true) == rest
  {
    if tag != "" {
      EncodedTagThenRest(tag, joined);
      assert ([tag] + Tags(joined, true))[1..] == Tags(joined, true) && ([tag] + rest)[1..] == rest;
    } else {
      assert "" + (", " + joined) == ", " + joined;
      EmptyTagBeforeRest(joined);
      assert ([tag] + rest)[0] == "";
    }
  }

  ghost predicate ComesBack(tags: seq<string>) { Tags(Join(", ", TagTexts(tags, true)), true) == tags }

  lemma ComesBackFirst(tags: seq<string>)
    requires |tags| > 1 && IsCString(tags[0])
    ensures ComesBack(tags) <==> tags[0] != "" && ComesBack(tags[1..])
  {
    JoinFirst(tags);
    FirstTag(tags[0], Join(", ", TagTexts(tags[1..], true)), tags[1..]);
    assert tags == [tags[0]] + tags[1..];
  }

  lemma ComesBackAlone(tags: seq<string>)
    requires |tags| == 1 && IsCString(tags[0])
    ensures ComesBack(tags) <==> tags[0] != ""
  {
    assert Join(", ", TagTexts(tags, true)) == Encode(tags[0]) + "" == Encode(tags[0]);
    OneTag(tags[0]);
    assert tags == [tags[0]];
  }

  /** An encoded list comes back exactly when no tag is empty; any bytes may be in a tag. An empty
      tag at the end is lost, and one before another tag comes back as the rest of the list. */
  lemma {:induction false} Utf8TagsRoundTripIff(tags: seq<string>)
    requires tags != [] && forall i :: 0 <= i < |tags| ==> IsCString(tags[i])
    ensures Tags(Join(", ", TagTexts(tags, true)), true) == tags <==> forall i :: 0 <= i < |tags| ==> tags[i] != ""
    decreases |tags|
  {
    if |tags| == 1 {
      ComesBackAlone(tags);
    } else {
      ComesBackFirst(tags);
      Utf8TagsRoundTripIff(tags[1..]);
    }
  }
}
