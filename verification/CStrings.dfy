/** C strings and the libc calls the client leans on: `strlen`, `strdup`, `strchr`/`strstr` for
    one character, `tolower`, `snprintf` into a bounded buffer, and `%lld` printing.

    A `char *` read as a value is a `string`. Where the original rewrites a buffer in place the
    model has an `array<char>` that holds the text, a NUL and whatever lies behind it. */
module CStrings {

  const NUL: char := '\0'

  datatype Option<+T> = None | Some(value: T)

  predicate NulFree(s: string) { NUL !in s }

  /** A `char *` as C sees it: bytes, none of them zero. */
  predicate IsCString(s: string) {
    forall i :: 0 <= i < |s| ==> 0 < s[i] as int < 256
  }

  // ---------------------------------------------------------------- searching

  /** The index of the first `c` in `s`, or `|s|` where `strchr` returns NULL. */
  function IndexOf(s: string, c: char): (k: nat)
    ensures k <= |s|
    ensures k < |s| ==> s[k] == c
    ensures forall i :: 0 <= i < k ==> s[i] != c
  {
    if s == [] || s[0] == c then 0 else 1 + IndexOf(s[1..], c)
  }

  /** What a C reader sees of a buffer: everything before the first NUL. */
  function CStringOf(s: seq<char>): (r: string)
    ensures NulFree(r)
  {
    s[..IndexOf(s, NUL)]
  }

  method Strlen(a: array<char>) returns (n: nat)
    requires NUL in a[..]
    ensures n < a.Length && a[n] == NUL && a[..n] == CStringOf(a[..])
  {
    n := 0;
    while a[n] != NUL
      invariant n < a.Length
      invariant n <= IndexOf(a[..], NUL) < a.Length
      decreases a.Length - n
    {
      n := n + 1;
    }
    assert n == IndexOf(a[..], NUL);
  }

  method Strdup(s: string) returns (a: array<char>)
    requires NulFree(s)
    ensures fresh(a) && a[..] == s + [NUL] && CStringOf(a[..]) == s
  {
    a := new char[|s| + 1](i => if 0 <= i < |s| then s[i] else NUL);
    assert a[..] == s + [NUL];
    assert (s + [NUL])[..|s|] == s;
    IndexOfFirst(s + [NUL], NUL, |s|);
  }

  /** Advances past spaces, as the `while(*p == ' ') p++` loops do. */
  function SkipSpaces(s: string): (r: string)
    ensures |r| <= |s|
    ensures r != [] ==> r[0] != ' '
  {
    if s != [] && s[0] == ' ' then SkipSpaces(s[1..]) else s
  }

  lemma {:induction false} SkipSpacesIs(s: string, m: nat)
    requires m <= |s| && (m < |s| ==> s[m] != ' ')
    requires forall i :: 0 <= i < m ==> s[i] == ' '
    ensures SkipSpaces(s) == s[m..]
  {
    if m > 0 { SkipSpacesIs(s[1..], m - 1); }
  }

  lemma {:induction false} SkippedSpaces(s: string)
    ensures var m := |s| - |SkipSpaces(s)|;
            SkipSpaces(s) == s[m..] && forall i :: 0 <= i < m ==> s[i] == ' '
  {
    if s != [] && s[0] == ' ' { SkippedSpaces(s[1..]); }
  }

  // ---------------------------------------------------------------- case

  /** `tolower` in the C locale. */
  function ToLower(c: char): char {
    if 'A' <= c <= 'Z' then (c as int + 32) as char else c
  }

  const UPPER_CASE := "ABCDEFGHIJKLMNOPQRSTUVWXYZ"
  const LOWER_CASE := "abcdefghijklmnopqrstuvwxyz"

  lemma UpperCaseIs(c: char)
    ensures c in UPPER_CASE <==> 'A' <= c <= 'Z'
    ensures 'A' <= c <= 'Z' ==> UPPER_CASE[c as int - 'A' as int] == c
  {
    if 'A' <= c <= 'Z' { assert UPPER_CASE[c as int - 'A' as int] == c; }
  }

  lemma LowerCaseIs(c: char)
    ensures c in LOWER_CASE <==> 'a' <= c <= 'z'
    ensures 'a' <= c <= 'z' ==> LOWER_CASE[c as int - 'a' as int] == c
  {
    if 'a' <= c <= 'z' { assert LOWER_CASE[c as int - 'a' as int] == c; }
  }

  /** A letter of the first alphabet becomes its neighbour in the second; everything else stays. */
  lemma ToLowerIs(c: char)
    ensures c in UPPER_CASE ==> exists i :: 0 <= i < 26 && c == UPPER_CASE[i] && ToLower(c) == LOWER_CASE[i]
    ensures c !in UPPER_CASE ==> ToLower(c) == c
  {
    UpperCaseIs(c);
    if 'A' <= c <= 'Z' {
      LowerCaseIs((c as int + 32) as char);
      var i := c as int - 'A' as int;
      assert c == UPPER_CASE[i] && ToLower(c) == LOWER_CASE[i];
    }
  }

  function Lower(s: string): (r: string)
    ensures |r| == |s|
    ensures forall i :: 0 <= i < |s| ==> r[i] == ToLower(s[i])
  {
    seq(|s|, i requires 0 <= i < |s| => ToLower(s[i]))
  }

  lemma LowerAbsent(s: string, c: char)
    requires c !in s && ToLower(c) == c && !('a' <= c <= 'z')
    ensures c !in Lower(s)
  {
    forall i | 0 <= i < |s|
      ensures Lower(s)[i] != c
    {
      assert s[i] in s;
    }
  }

  // ---------------------------------------------------------------- bounded copies

  /** `strlcpy(dest, src, destsz)` and the text `snprintf(dest, destsz, ...)` leaves. */
  function Truncate(s: string, destsz: nat): (r: string)
    requires destsz > 0
    ensures r <= s
    ensures |r| == if |s| < destsz then |s| else destsz - 1
  {
    if |s| < destsz then s else s[..destsz - 1]
  }

  // ---------------------------------------------------------------- splitting and joining

  /** Every text between separators, as a loop over `strstr(value, ",")` visits them. */
  function Split(s: string, sep: char): (parts: seq<string>)
    ensures |parts| >= 1
    ensures forall i :: 0 <= i < |parts| ==> sep !in parts[i]
    decreases |s|
  {
    var k := IndexOf(s, sep);
    if k == |s| then [s] else [s[..k]] + Split(s[k + 1..], sep)
  }

  /** `parts`, each with `sep` in front of it. */
  function Prefixed(sep: string, parts: seq<string>): string {
    if parts == [] then "" else sep + parts[0] + Prefixed(sep, parts[1..])
  }

  predicate AllWithout(c: char, parts: seq<string>) {
    forall i :: 0 <= i < |parts| ==> c !in parts[i]
  }

  lemma IndexOfFirst(s: string, c: char, k: nat)
    requires k <= |s| && c !in s[..k] && (k < |s| ==> s[k] == c)
    ensures IndexOf(s, c) == k
  {
    assert forall i :: 0 <= i < k ==> s[..k][i] == s[i];
    assert forall i :: 0 <= i < k ==> s[i] in s[..k];
  }

  /** Splitting undoes separating: the one fact every list header rests on. */
  lemma {:induction false} SplitPrefixed(first: string, rest: seq<string>, sep: char)
    requires sep !in first && AllWithout(sep, rest)
    ensures Split(first + Prefixed([sep], rest), sep) == [first] + rest
    decreases |rest|
  {
    hide IndexOf;
    var s := first + Prefixed([sep], rest);
    assert s[..|first|] == first;
    if rest == [] {
      assert s == first;
      IndexOfFirst(s, sep, |s|);
    } else {
      assert s[|first|] == sep;
      IndexOfFirst(s, sep, |first|);
      assert s[|first| + 1..] == rest[0] + Prefixed([sep], rest[1..]);
      SplitPrefixed(rest[0], rest[1..], sep);
    }
  }

  lemma PrefixedCons(sep: string, first: string, rest: seq<string>)
    ensures Prefixed(sep, [first] + rest) == sep + first + Prefixed(sep, rest)
  {
    assert ([first] + rest)[1..] == rest;
  }

  lemma {:induction false} PrefixedAppend(sep: string, a: seq<string>, b: seq<string>)
    ensures Prefixed(sep, a + b) == Prefixed(sep, a) + Prefixed(sep, b)
  {
    if a == [] {
      assert a + b == b;
    } else {
      assert (a + b)[1..] == a[1..] + b;
      PrefixedAppend(sep, a[1..], b);
    }
  }

  /** The parts with `sep` between them. */
  function Join(sep: string, parts: seq<string>): string {
    if parts == [] then "" else parts[0] + Prefixed(sep, parts[1..])
  }

  lemma RegroupJoin(a: string, b: string, sep: string, c: string, d: string)
    ensures a + (b + (sep + c + d)) == (a + b) + sep + (c + d)
  {
  }

  lemma JoinAppend(sep: string, a: seq<string>, b: seq<string>)
    requires a != [] && b != []
    ensures Join(sep, a + b) == Join(sep, a) + sep + Join(sep, b)
  {
    assert Join(sep, a + b) == a[0] + Prefixed(sep, a[1..] + b) by {
      assert (a + b)[0] == a[0] && (a + b)[1..] == a[1..] + b;
    }
    PrefixedAppend(sep, a[1..], b);
    RegroupJoin(a[0], Prefixed(sep, a[1..]), sep, b[0], Prefixed(sep, b[1..]));
  }

  lemma SplitJoin(parts: seq<string>, sep: char)
    requires parts != [] && AllWithout(sep, parts)
    ensures Split(Join([sep], parts), sep) == parts
  {
    SplitPrefixed(parts[0], parts[1..], sep);
  }

  lemma JoinCons(sep: string, parts: seq<string>)
    requires |parts| > 1
    ensures Join(sep, parts) == parts[0] + (sep + Join(sep, parts[1..]))
  {
    var rest := parts[1..];
    Assoc(sep, rest[0], Prefixed(sep, rest[1..]));
  }

  /** And joining undoes splitting, so no two texts split alike. */
  lemma {:induction false} JoinSplit(s: string, sep: char)
    ensures Join([sep], Split(s, sep)) == s
    decreases |s|
  {
    hide Join;
    var k := IndexOf(s, sep);
    if k < |s| {
      JoinSplit(s[k + 1..], sep);
      JoinFirst(s[..k], Split(s[k + 1..], sep), [sep]);
      CutAt(s, k);
    } else {
      JoinOne(s, [sep]);
    }
  }

  lemma JoinOne(s: string, sep: string)
    ensures Join(sep, [s]) == s
  {
    var parts: seq<string> := [s];
    assert parts[1..] == [];
  }

  lemma CutAt(s: string, k: nat)
    requires k < |s|
    ensures s == s[..k] + ([s[k]] + s[k + 1..])
  {
  }

  lemma JoinFirst(first: string, rest: seq<string>, sep: string)
    requires rest != []
    ensures Join(sep, [first] + rest) == first + (sep + Join(sep, rest))
  {
    JoinCons(sep, [first] + rest);
    assert ([first] + rest)[1..] == rest;
  }

  lemma JoinThree(sep: string, a: string, b: string, c: string)
    ensures Join(sep, [a, b, c]) == a + sep + b + sep + c
  {
    JoinAppend(sep, [a], [b]);
    JoinAppend(sep, [a, b], [c]);
    assert [a] + [b] == [a, b] && [a, b] + [c] == [a, b, c];
  }

  lemma SplitThree(a: string, b: string, c: string, sep: char)
    requires sep !in a && sep !in b && sep !in c
    ensures Split(a + [sep] + b + [sep] + c, sep) == [a, b, c]
  {
    SplitJoin([a, b, c], sep);
    JoinThree([sep], a, b, c);
  }

  function Spaced(parts: seq<string>): (r: seq<string>)
    ensures |r| == |parts| && forall i :: 0 <= i < |parts| ==> r[i] == " " + parts[i]
  {
    seq(|parts|, i requires 0 <= i < |parts| => " " + parts[i])
  }

  lemma {:induction false} SpacedPrefixed(parts: seq<string>)
    ensures Prefixed(", ", parts) == Prefixed(",", Spaced(parts))
  {
    if parts != [] {
      SpacedPrefixed(parts[1..]);
      assert Spaced(parts)[1..] == Spaced(parts[1..]);
      assert ", " == "," + " ";
    }
  }

  /** A list joined by a comma and a space splits into its entries, all but the first with the
      space in front. */
  lemma SplitSpacedJoin(parts: seq<string>)
    requires parts != [] && AllWithout(',', parts)
    ensures Split(Join(", ", parts), ',') == [parts[0]] + Spaced(parts[1..])
  {
    SpacedPrefixed(parts[1..]);
    SplitPrefixed(parts[0], Spaced(parts[1..]), ',');
    assert "," == [','];
  }

  lemma Assoc(a: string, b: string, c: string)
    ensures a + (b + c) == (a + b) + c
  {
  }

  // ---------------------------------------------------------------- decimal numbers

  function Digit(d: nat): char
    requires d < 10
  {
    ('0' as int + d) as char
  }

  /** `%lld` of a number that is not negative. */
  function Decimal(n: nat): (s: string)
    ensures |s| >= 1
    ensures forall i :: 0 <= i < |s| ==> '0' <= s[i] <= '9'
  {
    if n < 10 then [Digit(n)] else Decimal(n / 10) + [Digit(n % 10)]
  }

  /** `%lld`. */
  function DecimalInt(n: int): (s: string)
    ensures |s| >= 1
  {
    if n < 0 then "-" + Decimal(-n) else Decimal(n)
  }

  /** What `strtoll` makes of a run of digits. */
  function ParseDecimal(s: string): (n: nat)
    requires forall i :: 0 <= i < |s| ==> '0' <= s[i] <= '9'
  {
    if s == [] then 0 else 10 * ParseDecimal(s[..|s| - 1]) + (s[|s| - 1] as int - '0' as int)
  }

  /** A decimal number with an optional sign, None for anything else. */
  function ParseDecimalInt(s: string): (n: Option<int>) {
    if |s| >= 2 && s[0] == '-' && (forall i :: 1 <= i < |s| ==> '0' <= s[i] <= '9') then
      var n: int := ParseDecimal(s[1..]);
      Some(-n)
    else if |s| >= 1 && forall i :: 0 <= i < |s| ==> '0' <= s[i] <= '9' then Some(ParseDecimal(s))
    else None
  }

  predicate Digits(s: string) { forall i :: 0 <= i < |s| ==> '0' <= s[i] <= '9' }

  lemma DigitValue(d: nat)
    requires d < 10
    ensures ParseDecimal(["0123456789"[d]]) == d
  {
    var s: string := ["0123456789"[d]];
    assert s[..|s| - 1] == "";
  }

  lemma Shift(p: nat, pow: nat, q: nat, d: int)
    ensures 10 * (p * pow + q) + d == p * (10 * pow) + (10 * q + d)
  {
  }

  /** The most significant digit comes first. */
  lemma {:induction false} DecimalIsPositional(a: string, b: string)
    requires Digits(a) && Digits(b) && Digits(a + b)
    ensures ParseDecimal(a + b) == ParseDecimal(a) * Pow10(|b|) + ParseDecimal(b)
    decreases |b|
  {
    if b == "" {
      assert a + b == a;
    } else {
      var init, last := b[..|b| - 1], b[|b| - 1];
      DecimalIsPositional(a, init);
      assert (a + b)[..|a + b| - 1] == a + init && (a + b)[|a + b| - 1] == last;
      Shift(ParseDecimal(a), Pow10(|init|), ParseDecimal(init), last as int - '0' as int);
    }
  }

  lemma {:induction false} ParsePrintedDecimal(n: nat)
    ensures ParseDecimal(Decimal(n)) == n
  {
    var s := Decimal(n);
    if n < 10 {
      assert s[..|s| - 1] == [];
    } else {
      assert s[..|s| - 1] == Decimal(n / 10);
      ParsePrintedDecimal(n / 10);
    }
  }

  lemma ParsePrintedDecimalInt(n: int)
    ensures ParseDecimalInt(DecimalInt(n)) == Some(n)
  {
    ParsePrintedDecimal(if n < 0 then -n else n);
    if n < 0 {
      assert DecimalInt(n)[1..] == Decimal(-n);
    }
  }

  function Pow10(k: nat): nat { if k == 0 then 1 else 10 * Pow10(k - 1) }

  lemma {:induction false} DecimalLength(n: nat, k: nat)
    requires k >= 1 && n < Pow10(k)
    ensures |Decimal(n)| <= k
  {
    if n >= 10 {
      assert Pow10(k) == 10 * Pow10(k - 1);
      assert k >= 2 by {
        assert Pow10(0) == 1;
      }
      DecimalLength(n / 10, k - 1);
    }
  }

  const INT64_LIMIT: int := 0x8000_0000_0000_0000

  predicate Int64(n: int) { -INT64_LIMIT <= n < INT64_LIMIT }

  lemma Int64Digits(n: int)
    requires -INT64_LIMIT <= n <= INT64_LIMIT
    ensures n >= 0 ==> |Decimal(n)| <= 19
    ensures |DecimalInt(n)| <= 20
  {
    assert Pow10(19) == 10_000_000_000_000_000_000 by {
      assert Pow10(5) == 100_000;
      assert Pow10(10) == 10_000_000_000;
      assert Pow10(15) == 1_000_000_000_000_000;
    }
    DecimalLength(if n < 0 then -n else n, 19);
  }
}
