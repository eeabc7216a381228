/** The Range line of an update, and what a reader makes of it. -1 stands for an open end. */
module Ranges {
  import opened CStrings
  import opened Rest

  // ---------------------------------------------------------------- printing

  function RangeText(start: int, end: int): string {
    if start != -1 && end != -1 then DecimalInt(start) + "-" + DecimalInt(end)
    else if start != -1 then DecimalInt(start) + "-"
    else "-" + DecimalInt(end)
  }

  function RangeLine(start: int, end: int): string {
    Truncate(HTTP_HEADER_RANGE + ": " + ("Bytes=" + RangeText(start, end)), ATMOS_SIMPLE_HEADER_MAX)
  }

  /** The one line, or none, `AtmosFilter_update_object` adds. */
  function RangeHeader(start: int, end: int): seq<string> {
    if start == -1 && end == -1 then [] else [RangeLine(start, end)]
  }

  /** A line with 64-bit ends fits the buffer it is printed to. */
  lemma RangeNotCut(start: int, end: int)
    requires Int64(start) && Int64(end)
    ensures RangeLine(start, end) == HTTP_HEADER_RANGE + ": " + ("Bytes=" + RangeText(start, end))
  {
    hide DecimalInt;
    Int64Digits(start);
    Int64Digits(end);
  }

  // ---------------------------------------------------------------- reading

  /** The two ends a Range value names. */
  function ReadRange(value: string): Option<(int, int)> {
    if "Bytes=" <= value then ReadEnds(value[6..]) else None
  }

  function ReadEnds(text: string): Option<(int, int)> {
    if text == "" then None
    else if text[0] == '-' && ParseDecimalInt(text[1..]).Some? then Some((-1, ParseDecimalInt(text[1..]).value))
    else
      var dash := 1 + IndexOf(text[1..], '-');
      if dash == |text| || ParseDecimalInt(text[..dash]).None? then None
      else if dash + 1 == |text| then Some((ParseDecimalInt(text[..dash]).value, -1))
      else
        var last := ParseDecimalInt(text[dash + 1..]);
        if last.None? then None else Some((ParseDecimalInt(text[..dash]).value, last.value))
  }

  lemma DecimalShape(n: int)
    ensures var d := DecimalInt(n);
            |d| >= 1 && (d[0] == '-' ==> |d| >= 2) && forall i :: 1 <= i < |d| ==> d[i] != '-'
  {
  }

  /** The dash behind a number is the first one behind its sign, and a number does not go on there. */
  lemma DashBehind(n: int, rest: string)
    ensures var d := DecimalInt(n);
            var text := d + "-" + rest;
            && 1 + IndexOf(text[1..], '-') == |d|
            && (text[0] == '-' ==> ParseDecimalInt(text[1..]).None?)
  {
    DecimalShape(n);
    var d := DecimalInt(n);
    hide DecimalInt, ParseDecimal;
    var text := d + "-" + rest;
    var tail := text[1..];
    assert forall i :: 1 <= i < |d| ==> d[i] == tail[..|d| - 1][i - 1];
    IndexOfFirst(tail, '-', |d| - 1);
    if text[0] == '-' {
      assert tail[0] == d[1] && tail[|d| - 1] == '-';
    }
  }

  lemma ReadTwoParts(n: int, rest: string)
    ensures ReadEnds(DecimalInt(n) + "-" + rest) ==
            if rest == "" then Some((n, -1))
            else if ParseDecimalInt(rest).None? then None
            else Some((n, ParseDecimalInt(rest).value))
  {
    DashBehind(n, rest);
    DecimalShape(n);
    ParsePrintedDecimalInt(n);
    var d := DecimalInt(n);
    hide DecimalInt, ParseDecimalInt;
    var text := d + "-" + rest;
    assert text[..|d|] == d && text[|d| + 1..] == rest;
  }

  lemma ReadOpenStart(end: int)
    ensures ReadEnds("-" + DecimalInt(end)) == Some((-1, end))
  {
    ParsePrintedDecimalInt(end);
    var d := DecimalInt(end);
    hide DecimalInt, ParseDecimalInt;
    assert ("-" + d)[1..] == d;
  }

  /** Whatever the ends are, negative ones among them, the text determines both. */
  lemma RangeReadBack(start: int, end: int)
    requires start != -1 || end != -1
    ensures ReadRange("Bytes=" + RangeText(start, end)) == Some((start, end))
  {
    var text := RangeText(start, end);
    assert ("Bytes=" + text)[6..] == text;
    if start == -1 {
      ReadOpenStart(end);
    } else if end == -1 {
      ReadTwoParts(start, "");
      assert DecimalInt(start) + "-" + "" == DecimalInt(start) + "-";
    } else {
      ReadTwoParts(start, DecimalInt(end));
      DecimalShape(end);
      ParsePrintedDecimalInt(end);
    }
  }

  // ---------------------------------------------------------------- in a request

  /** The range a request announces, `(-1, -1)` when it has no Range line; None if that line cannot
      be read. */
  function AnnouncedRange(headers: seq<string>): Option<(int, int)> {
    var value := HeaderValue(headers, "Range");
    if value.None? then Some((-1, -1)) else ReadRange(value.value)
  }

  lemma RangeLineValue(start: int, end: int)
    requires Int64(start) && Int64(end)
    ensures HeaderValue([RangeLine(start, end)], HTTP_HEADER_RANGE) == Some("Bytes=" + RangeText(start, end))
  {
    RangeNotCut(start, end);
    var text := "Bytes=" + RangeText(start, end);
    assert text[0] == 'B';
    hide RangeText, RangeLine, HeaderValue;
    LineValue(HTTP_HEADER_RANGE, text);
  }

  /** A reader of the request finds the two ends that were set, whatever lines follow. */
  lemma RangeAnnounced(before: seq<string>, start: int, end: int, after: seq<string>)
    requires Int64(start) && Int64(end) && HeaderValue(before, HTTP_HEADER_RANGE).None?
    requires start == -1 && end == -1 ==> HeaderValue(after, HTTP_HEADER_RANGE).None?
    ensures AnnouncedRange(before + RangeHeader(start, end) + after) == Some((start, end))
  {
    HeaderValueAppend(before + RangeHeader(start, end), after, HTTP_HEADER_RANGE);
    HeaderValueAppend(before, RangeHeader(start, end), HTTP_HEADER_RANGE);
    if start != -1 || end != -1 {
      hide HeaderValue, RangeText, RangeLine, ReadRange;
      RangeLineValue(start, end);
      RangeReadBack(start, end);
    }
  }
}
