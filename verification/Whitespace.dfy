/** `AtmosUtil_normalize_whitespace` and `AtmosUtil_lowercaseheader`: the in-place loops, the
    functions they compute, and what those functions mean.

    Normalisation is read as a rewriting system. One step deletes one space that does not matter;
    the loop finds the one normal form every header has, so two headers come out alike exactly
    when deleting and inserting such spaces turns one into the other. */
module Whitespace {
  import opened CStrings

  // ---------------------------------------------------------------- the function

  /** `s` is what is left to read; `sep` says that the first colon has been read. */
  function NormalizeFrom(s: string, sep: bool): (r: string)
    ensures |r| <= |s|
    decreases |s|
  {
    if s == [] then []
    else if s[0] == ' ' then
      if |s| == 1 || s[1] == ' ' || s[1] == ',' || (!sep && s[1] == ':') then NormalizeFrom(s[1..], sep)
      else [' '] + NormalizeFrom(s[1..], sep)
    else if s[0] == ':' && !sep then [':'] + NormalizeFrom(SkipSpaces(s[1..]), true)
    else [s[0]] + NormalizeFrom(s[1..], sep)
  }

  function Normalize(s: string): string { NormalizeFrom(s, false) }

  // ---------------------------------------------------------------- the rewriting system

  /** The space at `k` does not matter: it stands before another space, before a comma, at the
      end, or on either side of the first colon. */
  predicate RemovableFrom(s: string, k: nat, sep: bool) {
    && k < |s| && s[k] == ' '
    && (|| k + 1 == |s|
        || s[k + 1] == ' '
        || s[k + 1] == ','
        || (!sep && s[k + 1] == ':' && ':' !in s[..k])
        || (!sep && k > 0 && s[k - 1] == ':' && ':' !in s[..k - 1]))
  }

  function Delete(s: string, k: nat): string
    requires k < |s|
  {
    s[..k] + s[k + 1..]
  }

  ghost predicate Step(s: string, t: string) {
    exists k: nat :: RemovableFrom(s, k, false) && t == Delete(s, k)
  }

  ghost predicate IrreducibleFrom(s: string, sep: bool) {
    forall k: nat :: !RemovableFrom(s, k, sep)
  }

  ghost predicate Irreducible(s: string) { IrreducibleFrom(s, false) }

  /** A list of headers each of which is one step away from the next, in either direction. */
  ghost predicate IsPath(path: seq<string>) {
    forall i :: 0 <= i < |path| - 1 ==> Step(path[i], path[i + 1]) || Step(path[i + 1], path[i])
  }

  /** The same with every step deleting. */
  ghost predicate IsReduction(path: seq<string>) {
    forall i :: 0 <= i < |path| - 1 ==> Step(path[i], path[i + 1])
  }

  ghost predicate Links(path: seq<string>, s: string, t: string) {
    path != [] && path[0] == s && path[|path| - 1] == t
  }

  ghost predicate Reduces(s: string, t: string) {
    exists path :: Links(path, s, t) && IsReduction(path)
  }

  ghost predicate Interchangeable(s: string, t: string) {
    exists path :: Links(path, s, t) && IsPath(path)
  }

  // ---------------------------------------------------------------- a step changes nothing

  lemma SkipSpacesDeleteLeading(s: string, k: nat)
    requires k < |s| - |SkipSpaces(s)|
    ensures SkipSpaces(Delete(s, k)) == SkipSpaces(s)
  {
    var m := |s| - |SkipSpaces(s)|;
    var t := Delete(s, k);
    SkippedSpaces(s);
    SkipSpacesIs(t, m - 1);
    assert t[m - 1..] == s[m..];
  }

  lemma SkipSpacesDeleteInside(s: string, k: nat, m: nat)
    requires m == |s| - |SkipSpaces(s)| <= k < |s| && s[k] == ' '
    ensures SkipSpaces(s) == s[m..] && SkipSpaces(Delete(s, k)) == Delete(s[m..], k - m)
  {
    var t := Delete(s, k);
    SkippedSpaces(s);
    assert s[m] != ' ';
    SkipSpacesIs(t, m);
    assert t[m..] == Delete(s[m..], k - m);
  }

  /** Deleting a removable space does not change what normalisation computes. */
  lemma {:induction false} StepInvariantFrom(s: string, k: nat, sep: bool)
    requires RemovableFrom(s, k, sep)
    ensures NormalizeFrom(Delete(s, k), sep) == NormalizeFrom(s, sep)
    decreases |s|
  {
    var t := Delete(s, k);
    if k == 0 || (k == 1 && s[0] == ' ') {
      assert t == s[1..];
    } else {
      assert t[0] == s[0] && t[1..] == Delete(s[1..], k - 1);
      if s[0] == ':' && !sep {
        StepInvariantAfterColon(s, k);
      } else {
        RemovableInTail(s, k, sep);
        StepInvariantFrom(s[1..], k - 1, sep);
        assert s[0] == ' ' ==> k >= 2 && t[1] == s[1];
      }
    }
  }

  lemma RemovableInTail(s: string, k: nat, sep: bool)
    requires RemovableFrom(s, k, sep) && k > 0 && !(s[0] == ':' && !sep)
    ensures RemovableFrom(s[1..], k - 1, sep)
  {
    assert s[1..][..k - 1] == s[..k][1..];
    if k >= 2 { assert s[1..][..k - 2] == s[..k - 1][1..]; }
  }

  lemma RemovablePastColon(s: string, k: nat)
    requires k > 0 && RemovableFrom(s, k, false) && s[0] == ':'
    ensures k == 1 || RemovableFrom(s, k, true)
  {
    assert s[..k][0] == ':';
    if k > 1 { assert s[..k - 1][0] == ':'; }
  }

  lemma RemovableDropped(s: string, k: nat, m: nat)
    requires m <= k && RemovableFrom(s, k, true)
    ensures RemovableFrom(s[m..], k - m, true)
  {
  }

  lemma StepInvariantAfterColon(s: string, k: nat)
    requires k > 0 && RemovableFrom(s, k, false) && s[0] == ':'
    ensures NormalizeFrom(SkipSpaces(Delete(s[1..], k - 1)), true) == NormalizeFrom(SkipSpaces(s[1..]), true)
    decreases |s|, 0
  {
    hide NormalizeFrom, SkipSpaces;
    var tail := s[1..];
    var m := |tail| - |SkipSpaces(tail)|;
    if k - 1 < m {
      SkipSpacesDeleteLeading(tail, k - 1);
    } else {
      SkipSpacesDeleteInside(tail, k - 1, m);
      RemovablePastColon(s, k);
      RemovableDropped(s, k, m + 1);
      assert tail[m..] == s[m + 1..];
      StepInvariantFrom(tail[m..], k - 1 - m, true);
    }
  }

  /** Every header that two steps lead to from one header normalises to the same text. */
  lemma StepInvariant(s: string, t: string)
    requires Step(s, t)
    ensures Normalize(s) == Normalize(t) && |t| < |s|
  {
    var k: nat :| RemovableFrom(s, k, false) && t == Delete(s, k);
    StepInvariantFrom(s, k, false);
  }

  // ---------------------------------------------------------------- normal forms

  lemma {:induction false} IrreducibleFixedFrom(s: string, sep: bool)
    requires IrreducibleFrom(s, sep)
    ensures NormalizeFrom(s, sep) == s
    decreases |s|
  {
    if s != [] {
      assert !RemovableFrom(s, 0, sep);
      var colon := s[0] == ':' && !sep;
      if colon && |s| > 1 {
        assert s[..0] == [] && !RemovableFrom(s, 1, sep);
      }
      var sep' := sep || colon;
      forall k: nat
        ensures !RemovableFrom(s[1..], k, sep')
      {
        assert !RemovableFrom(s, k + 1, sep);
        if k < |s| - 1 {
          assert s[1..][..k] == s[..k + 1][1..];
          if k > 0 { assert s[1..][..k - 1] == s[..k][1..]; }
        }
      }
      IrreducibleFixedFrom(s[1..], sep');
      assert s == [s[0]] + s[1..];
    }
  }

  /** Normalisation is reached by deleting removable spaces, and nothing is left to delete. */
  lemma {:induction false} NormalizeReduces(s: string)
    ensures Reduces(s, Normalize(s)) && Irreducible(Normalize(s))
    decreases |s|
  {
    if Irreducible(s) {
      IrreducibleFixedFrom(s, false);
      assert Links([s], s, s) && IsReduction([s]);
    } else {
      var k: nat :| RemovableFrom(s, k, false);
      var t := Delete(s, k);
      assert Step(s, t);
      StepInvariant(s, t);
      NormalizeReduces(t);
      var path :| Links(path, t, Normalize(t)) && IsReduction(path);
      var longer := [s] + path;
      assert IsReduction(longer) by {
        forall i | 0 <= i < |longer| - 1
          ensures Step(longer[i], longer[i + 1])
        {
          if i > 0 { assert Step(path[i - 1], path[i]); }
        }
      }
      assert Links(longer, s, Normalize(s));
    }
  }

  /** A second pass finds nothing to do; the texts it leaves alone are the irreducible ones. */
  lemma NormalFormsAreFixed(s: string)
    ensures Normalize(Normalize(s)) == Normalize(s)
    ensures Irreducible(s) <==> Normalize(s) == s
  {
    NormalizeReduces(s);
    IrreducibleFixedFrom(Normalize(s), false);
    if Irreducible(s) { IrreducibleFixedFrom(s, false); }
  }

  lemma {:induction false} PathKeepsNormalForm(path: seq<string>)
    requires path != [] && IsPath(path)
    ensures Normalize(path[0]) == Normalize(path[|path| - 1])
  {
    if |path| > 1 {
      if Step(path[0], path[1]) { StepInvariant(path[0], path[1]); } else { StepInvariant(path[1], path[0]); }
      var rest := path[1..];
      assert forall i :: 0 <= i < |rest| ==> rest[i] == path[i + 1];
      PathKeepsNormalForm(rest);
    }
  }

  /** Two headers normalise alike exactly when adding and deleting spaces that do not matter
      leads from one to the other. */
  lemma NormalizeDecidesInterchange(s: string, t: string)
    ensures Normalize(s) == Normalize(t) <==> Interchangeable(s, t)
  {
    if Interchangeable(s, t) {
      var path :| Links(path, s, t) && IsPath(path);
      PathKeepsNormalForm(path);
    }
    if Normalize(s) == Normalize(t) {
      NormalizeReduces(s);
      NormalizeReduces(t);
      var down :| Links(down, s, Normalize(s)) && IsReduction(down);
      var other :| Links(other, t, Normalize(t)) && IsReduction(other);
      var path := down + seq(|other| - 1, i requires 0 <= i < |other| - 1 => other[|other| - 2 - i]);
      forall i | 0 <= i < |path| - 1
        ensures Step(path[i], path[i + 1]) || Step(path[i + 1], path[i])
      {
        if i < |down| - 1 {
          assert Step(down[i], down[i + 1]);
        } else {
          var j := |other| - 2 - (i + 1 - |down|);
          assert path[i + 1] == other[j] && path[i] == other[j + 1];
          assert Step(other[j], other[j + 1]);
        }
      }
      assert Links(path, s, t);
    }
  }

  // ---------------------------------------------------------------- the rules, written out

  lemma DeleteMiddle(a: string, b: string)
    ensures Delete(a + (" " + b), |a|) == a + b
  {
  }

  /** A space does not count before a space, before a comma, at the end, or on either side of the first
      colon. */
  lemma SpaceRules(a: string, b: string)
    ensures Normalize(a + ("  " + b)) == Normalize(a + (" " + b))
    ensures Normalize(a + (" ," + b)) == Normalize(a + ("," + b))
    ensures Normalize(a + " ") == Normalize(a)
    ensures ':' !in a ==> Normalize(a + (" :" + b)) == Normalize(a + (":" + b))
    ensures ':' !in a ==> Normalize(a + (": " + b)) == Normalize(a + (":" + b))
  {
    RuleAt(a, " " + b);
    assert a + ("  " + b) == a + (" " + (" " + b));
    RuleAt(a, "," + b);
    assert a + (" ," + b) == a + (" " + ("," + b));
    RuleAt(a, "");
    assert a + " " == a + (" " + "") && a + "" == a;
    if ':' !in a {
      RuleAt(a, ":" + b);
      assert a + (" :" + b) == a + (" " + (":" + b));
      var s := a + (": " + b);
      assert s[..|a| + 1][..|a|] == a == s[..|a|];
      assert Delete(s, |a| + 1) == a + (":" + b);
      StepInvariantFrom(s, |a| + 1, false);
    }
  }

  lemma RuleAt(a: string, rest: string)
    requires rest == "" || rest[0] == ' ' || rest[0] == ',' || (rest[0] == ':' && ':' !in a)
    ensures Normalize(a + (" " + rest)) == Normalize(a + rest)
  {
    var s := a + (" " + rest);
    assert s[|a|] == ' ' && s[..|a|] == a;
    assert rest != "" ==> s[|a| + 1] == rest[0];
    DeleteMiddle(a, rest);
    StepInvariantFrom(s, |a|, false);
  }

  /** And nowhere else: these are the headers that stay as they are. */
  lemma FixedIff(s: string)
    ensures Normalize(s) == s <==>
              && (forall k :: 0 <= k < |s| && s[k] == ' ' ==>
                    k + 1 < |s| && s[k + 1] != ' ' && s[k + 1] != ',' && !(s[k + 1] == ':' && ':' !in s[..k]))
              && (forall k :: 0 < k < |s| && s[k] == ' ' && s[k - 1] == ':' ==> ':' in s[..k - 1])
  {
    NormalFormsAreFixed(s);
    if Irreducible(s) {
      forall k | 0 <= k < |s| && s[k] == ' '
        ensures k + 1 < |s| && s[k + 1] != ' ' && s[k + 1] != ',' && !(s[k + 1] == ':' && ':' !in s[..k])
        ensures k > 0 && s[k - 1] == ':' ==> ':' in s[..k - 1]
      {
        assert !RemovableFrom(s, k, false);
      }
    }
  }

  // ---------------------------------------------------------------- what is kept

  function Ink(s: string): string {
    if s == [] then [] else (if s[0] == ' ' then [] else [s[0]]) + Ink(s[1..])
  }

  lemma {:induction false} InkSkipSpaces(s: string)
    ensures Ink(SkipSpaces(s)) == Ink(s)
  {
    if s != [] && s[0] == ' ' { InkSkipSpaces(s[1..]); }
  }

  /** Only spaces go: the other characters stay, in order. */
  lemma {:induction false} InkKept(s: string, sep: bool)
    ensures Ink(NormalizeFrom(s, sep)) == Ink(s)
    decreases |s|
  {
    if s != [] {
      var rest := if s[0] == ':' && !sep then SkipSpaces(s[1..]) else s[1..];
      InkSkipSpaces(s[1..]);
      InkKept(rest, sep || s[0] == ':');
      InkKept(rest, sep);
      var n := NormalizeFrom(rest, sep || (s[0] == ':' && !sep));
      assert ([s[0]] + n)[1..] == n;
    }
  }

  lemma {:induction false} InkHas(s: string, c: char)
    requires c != ' '
    ensures c in Ink(s) <==> c in s
  {
    if s != [] {
      InkHas(s[1..], c);
      assert s == [s[0]] + s[1..];
    }
  }

  lemma NormalizeKeeps(s: string, c: char)
    requires c != ' '
    ensures c in Normalize(s) <==> c in s
  {
    InkKept(s, false);
    InkHas(s, c);
    InkHas(Normalize(s), c);
  }

  // ---------------------------------------------------------------- header names

  /** Lower case up to the first colon, as it is after that. */
  function LowerHeader(s: string): (r: string)
    ensures |r| == |s|
  {
    if s == [] || s[0] == ':' then s else [ToLower(s[0])] + LowerHeader(s[1..])
  }

  lemma {:induction false} LowerHeaderAt(s: string, i: nat)
    requires i < |s|
    ensures LowerHeader(s)[i] == if ':' in s[..i + 1] then s[i] else ToLower(s[i])
  {
    if i > 0 && s[0] != ':' {
      assert s[..i + 1][1..] == s[1..][..i];
      LowerHeaderAt(s[1..], i - 1);
    }
  }

  lemma {:induction false} LowerHeaderKeeps(s: string, c: char)
    requires !('a' <= c <= 'z') && !('A' <= c <= 'Z')
    ensures c in LowerHeader(s) <==> c in s
  {
    if s != [] && s[0] != ':' { LowerHeaderKeeps(s[1..], c); }
  }

  /** Lower-casing the name and squeezing the spaces may be done in either order. */
  lemma {:induction false} NormalizeLowerHeader(s: string)
    ensures Normalize(LowerHeader(s)) == LowerHeader(Normalize(s))
    decreases |s|
  {
    if s != [] && s[0] != ':' {
      var rest := s[1..];
      NormalizeLowerHeader(rest);
      var n := NormalizeFrom(rest, false);
      assert LowerHeader(s)[1..] == LowerHeader(rest);
      assert rest != [] ==> LowerHeader(rest)[0] == if rest[0] == ':' then ':' else ToLower(rest[0]);
      assert ([s[0]] + n)[1..] == n;
    }
  }

  // ---------------------------------------------------------------- the loops

  method LowercaseHeader(s: array<char>)
    requires NUL in s[..] && ':' in CStringOf(s[..])
    modifies s
    ensures CStringOf(s[..]) == LowerHeader(old(CStringOf(s[..])))
    ensures forall k :: IndexOf(old(s[..]), ':') <= k < s.Length ==> s[k] == old(s[k])
  {
    ghost var was := s[..];
    ghost var colon := IndexOf(was, ':');
    ghost var text := CStringOf(was);
    assert was[|text|] == NUL && colon < |text| by {
      var k :| 0 <= k < |text| && text[k] == ':';
      assert was[k] == ':';
    }
    var i := 0;
    while s[i] != ':'
      invariant 0 <= i <= colon
      invariant forall k :: 0 <= k < i ==> s[k] == ToLower(was[k])
      invariant forall k :: i <= k < s.Length ==> s[k] == was[k]
      decreases colon - i
    {
      s[i] := ToLower(s[i]);
      i := i + 1;
    }
    var lowered := LowerHeader(text);
    forall k | 0 <= k < |text|
      ensures s[..|text|][k] == lowered[k]
    {
      LowerHeaderAt(text, k);
      if k >= colon { assert text[..k + 1][colon] == ':'; }
      else { assert forall x :: 0 <= x < k + 1 ==> text[..k + 1][x] == was[x]; }
    }
    assert s[..][..|text|] == lowered;
    LowerHeaderKeeps(text, NUL);
    IndexOfFirst(s[..], NUL, |text|);
  }

  method Lowercase(s: array<char>)
    requires NUL in s[..]
    modifies s
    ensures CStringOf(s[..]) == Lower(old(CStringOf(s[..])))
    ensures forall k :: |CStringOf(s[..])| <= k < s.Length ==> s[k] == old(s[k])
  {
    ghost var was := s[..];
    ghost var text := CStringOf(was);
    var i := 0;
    while s[i] != NUL
      invariant 0 <= i <= |text|
      invariant forall k :: 0 <= k < i ==> s[k] == ToLower(was[k])
      invariant forall k :: i <= k < s.Length ==> s[k] == was[k]
      decreases |text| - i
    {
      assert text[i] == was[i];
      s[i] := ToLower(s[i]);
      i := i + 1;
    }
    assert i == |text|;
    LowerAbsent(text, NUL);
    assert s[..][..|text|] == Lower(text);
    IndexOfFirst(s[..], NUL, |text|);
  }

  predicate Dropped(s: string, i: nat, sep: bool)
    requires i < |s|
  {
    s[i] == ' ' && (i + 1 == |s| || s[i + 1] == ' ' || s[i + 1] == ',' || (!sep && s[i + 1] == ':'))
  }

  lemma NormalizeAt(s: string, i: nat, sep: bool)
    requires i < |s|
    ensures Dropped(s, i, sep) ==> NormalizeFrom(s[i..], sep) == NormalizeFrom(s[i + 1..], sep)
    ensures !Dropped(s, i, sep) && !(s[i] == ':' && !sep) ==>
              NormalizeFrom(s[i..], sep) == [s[i]] + NormalizeFrom(s[i + 1..], sep)
    ensures s[i] == ':' && !sep ==>
              NormalizeFrom(s[i..], sep) == [':'] + NormalizeFrom(SkipSpaces(s[i + 1..]), true)
  {
    assert s[i..][1..] == s[i + 1..];
  }

  /** The state of the pass over `text`: the part before `j` is final, the part from `j` on is
      what it `was`, and reading on from `i` completes the normal form. */
  ghost predicate Progress(now: seq<char>, was: seq<char>, text: string, i: nat, j: nat, sep: bool) {
    && |now| == |was| && j <= i <= |text| < |was|
    && text <= was
    && now[j..] == was[j..]
    && now[..j] + NormalizeFrom(text[i..], sep) == Normalize(text)
  }

  lemma Write(now: seq<char>, was: seq<char>, j: nat, c: char, rest: string)
    requires j < |now| == |was| && now[j..] == was[j..]
    ensures now[j := c][j + 1..] == was[j + 1..]
    ensures now[j := c][..j + 1] + rest == now[..j] + ([c] + rest)
  {
    assert now[j := c][j + 1..] == now[j..][1..] == was[j..][1..];
    assert now[j := c][..j + 1] == now[..j] + [c];
  }

  lemma ProgressDropped(now: seq<char>, was: seq<char>, text: string, i: nat, j: nat, sep: bool)
    requires Progress(now, was, text, i, j, sep) && i < |text| && Dropped(text, i, sep)
    ensures Progress(now, was, text, i + 1, j, sep)
  {
    NormalizeAt(text, i, sep);
  }

  lemma ProgressCopied(now: seq<char>, was: seq<char>, text: string, i: nat, j: nat, sep: bool)
    requires Progress(now, was, text, i, j, sep) && i < |text|
    requires !Dropped(text, i, sep) && !(text[i] == ':' && !sep)
    ensures Progress(now[j := text[i]], was, text, i + 1, j + 1, sep)
  {
    NormalizeAt(text, i, sep);
    Write(now, was, j, text[i], NormalizeFrom(text[i + 1..], sep));
  }

  lemma ProgressColon(now: seq<char>, was: seq<char>, text: string, i: nat, j: nat, next: nat)
    requires Progress(now, was, text, i, j, false) && i < |text| && text[i] == ':'
    requires i < next <= |text| && SkipSpaces(text[i + 1..]) == text[next..]
    ensures Progress(now[j := text[i]], was, text, next, j + 1, true)
  {
    NormalizeAt(text, i, false);
    Write(now, was, j, text[i], NormalizeFrom(text[next..], true));
  }

  lemma ProgressUnread(now: seq<char>, was: seq<char>, text: string, i: nat, j: nat, sep: bool)
    requires Progress(now, was, text, i, j, sep)
    ensures forall k :: i <= k < |text| ==> now[k] == text[k]
  {
    forall k | i <= k < |text|
      ensures now[k] == text[k]
    {
      assert now[j..][k - j] == was[j..][k - j];
    }
  }

  lemma SkipSpacesAt(s: string, i: nat)
    requires i <= |s|
    ensures SkipSpaces(s[i..]) == if i < |s| && s[i] == ' ' then SkipSpaces(s[i + 1..]) else s[i..]
  {
    if i < |s| { assert s[i..][1..] == s[i + 1..]; }
  }

  /** The end of the run of spaces at `i`. */
  method SkipRun(header: array<char>, i: nat, sz: nat, ghost text: string) returns (next: nat)
    requires i <= sz == |text| <= header.Length
    requires forall k :: i <= k < sz ==> header[k] == text[k]
    ensures i <= next <= sz && SkipSpaces(text[i..]) == text[next..]
  {
    next := i;
    while next < sz && header[next] == ' '
      invariant i <= next <= sz
      invariant SkipSpaces(text[i..]) == SkipSpaces(text[next..])
    {
      SkipSpacesAt(text, next);
      next := next + 1;
    }
    SkipSpacesAt(text, next);
  }

  method Copy(header: array<char>, i: nat, j: nat, ghost was: seq<char>, ghost text: string, ghost sep: bool)
    requires Progress(header[..], was, text, i, j, sep) && i < |text|
    requires !Dropped(text, i, sep) && !(text[i] == ':' && !sep)
    modifies header
    ensures Progress(header[..], was, text, i + 1, j + 1, sep)
  {
    ghost var now := header[..];
    ProgressUnread(now, was, text, i, j, sep);
    ProgressCopied(now, was, text, i, j, sep);
    header[j] := header[i];
    assert header[..] == now[j := text[i]];
  }

  method CopyColon(header: array<char>, i: nat, j: nat, sz: nat, ghost was: seq<char>, ghost text: string)
    returns (next: nat)
    requires Progress(header[..], was, text, i, j, false) && i < |text| == sz && text[i] == ':'
    modifies header
    ensures i < next && Progress(header[..], was, text, next, j + 1, true)
  {
    ghost var now := header[..];
    ProgressUnread(now, was, text, i, j, false);
    header[j] := header[i];
    assert header[..] == now[j := text[i]];
    next := SkipRun(header, i + 1, sz, text);
    ProgressColon(now, was, text, i, j, next);
  }

  /** One turn of the loop: what it does with the character at `i`. */
  method Advance(header: array<char>, i: nat, j: nat, sz: nat, sepfound: bool,
                 ghost was: seq<char>, ghost text: string)
    returns (i': nat, j': nat, sepfound': bool)
    requires Progress(header[..], was, text, i, j, sepfound) && i < |text| == sz
    modifies header
    ensures i < i' && Progress(header[..], was, text, i', j', sepfound')
  {
    ProgressUnread(header[..], was, text, i, j, sepfound);
    i', j', sepfound' := i + 1, j + 1, sepfound;
    if header[i] == ' ' {
      if i + 1 == sz || header[i + 1] == ' ' || header[i + 1] == ',' || (!sepfound && header[i + 1] == ':') {
        ProgressDropped(header[..], was, text, i, j, sepfound);
        j' := j;
      } else {
        Copy(header, i, j, was, text, sepfound);
      }
    } else if header[i] == ':' && !sepfound {
      i' := CopyColon(header, i, j, sz, was, text);
      sepfound' := true;
    } else {
      Copy(header, i, j, was, text, sepfound);
    }
  }

  /** One pass over the header with a read index and a write index. The write index never passes
      the read index, so what is still to be read is untouched; nothing behind the NUL that ends
      the result is written either. */
  method NormalizeWhitespace(header: array<char>)
    requires NUL in header[..]
    modifies header
    ensures NUL in header[..]
    ensures CStringOf(header[..]) == Normalize(old(CStringOf(header[..])))
    ensures forall k :: |CStringOf(header[..])| < k < header.Length ==> header[k] == old(header[k])
  {
    var sz := Strlen(header);
    ghost var was := header[..];
    ghost var text := CStringOf(was);
    var i, j := 0, 0;
    var sepfound := false;
    assert Progress(header[..], was, text, 0, 0, false) by {
      assert text[0..] == text && header[..][..0] == [];
    }
    while i < sz
      invariant i <= sz && Progress(header[..], was, text, i, j, sepfound)
    {
      i, j, sepfound := Advance(header, i, j, sz, sepfound, was, text);
    }
    Terminate(header, was, text, j, sepfound);
  }

  method Terminate(header: array<char>, ghost was: seq<char>, ghost text: string, j: nat, ghost sep: bool)
    requires Progress(header[..], was, text, |text|, j, sep) && NulFree(text)
    modifies header
    ensures NUL in header[..]
    ensures CStringOf(header[..]) == Normalize(text)
    ensures forall k :: |CStringOf(header[..])| < k < header.Length ==> header[k] == was[k]
  {
    ghost var now := header[..];
    assert text[|text|..] == [] && now[..j] == Normalize(text);
    header[j] := NUL;
    assert header[..][..j] == now[..j] && header[..][j] == NUL;
    NormalizeKeeps(text, NUL);
    IndexOfFirst(header[..], NUL, j);
    forall k | j < k < header.Length
      ensures header[k] == was[k]
    {
      assert now[j..][k - j] == was[j..][k - j];
    }
  }
}
