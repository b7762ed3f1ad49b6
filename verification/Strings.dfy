/** `Split` and `Join` of the base library. */
module Strings {

  predicate Free(s: string, c: char) { c !in s }

  /** The first place from `base` on with the delimiter, or the end. */
  function FirstOf(s: string, c: char, base: nat): (f: nat)
    requires base <= |s|
    ensures base <= f <= |s| && Free(s[base..f], c) && (f < |s| ==> s[f] == c)
    decreases |s| - base
  {
    if base == |s| || s[base] == c then base else FirstOf(s, c, base + 1)
  }

  /** The parts of `s` from `base` on. */
  function SplitFrom(s: string, c: char, base: nat): (parts: seq<string>)
    requires base <= |s|
    ensures parts != []
    decreases |s| - base
  {
    var f := FirstOf(s, c, base);
    if f == |s| then [s[base..]] else [s[base..f]] + SplitFrom(s, c, f + 1)
  }

  // ---------- any set of delimiters ----------

  ghost predicate NoneOf(s: string, delimiters: string) { forall i :: 0 <= i < |s| ==> s[i] !in delimiters }

  /** `find_first_of`: the first place from `base` on with a delimiter, or the end. */
  function FirstOfAny(s: string, delimiters: string, base: nat): (f: nat)
    requires base <= |s|
    ensures base <= f <= |s| && NoneOf(s[base..f], delimiters) && (f < |s| ==> s[f] in delimiters)
    decreases |s| - base
  {
    if base == |s| || s[base] in delimiters then base else FirstOfAny(s, delimiters, base + 1)
  }

  /** The parts of `s` from `base` on. */
  function SplitAny(s: string, delimiters: string, base: nat): (parts: seq<string>)
    requires base <= |s|
    ensures parts != []
    decreases |s| - base
  {
    var f := FirstOfAny(s, delimiters, base);
    if f == |s| then [s[base..]] else [s[base..f]] + SplitAny(s, delimiters, f + 1)
  }

  /** The loop of the source. */
  method Split(s: string, delimiters: string) returns (result: seq<string>)
    requires delimiters != ""
    ensures result == SplitAny(s, delimiters, 0)
    ensures |delimiters| == 1 ==> result == SplitFrom(s, delimiters[0], 0)
  {
    result := [];
    var base: nat := 0;
    while true
      invariant base <= |s| && result + SplitAny(s, delimiters, base) == SplitAny(s, delimiters, 0)
      decreases |s| - base
    {
      var found := FirstOfAny(s, delimiters, base);
      var before := result;
      if found == |s| {
        result := result + [s[base..]];
        break;
      }
      result := result + [s[base..found]];
      ghost var rest := SplitAny(s, delimiters, found + 1);
      assert before + ([s[base..found]] + rest) == result + rest;
      base := found + 1;
    }
    if |delimiters| == 1 { OneDelimiter(s, delimiters, 0); }
  }

  lemma {:induction false} FirstOfOne(s: string, delimiters: string, base: nat)
    requires base <= |s| && |delimiters| == 1
    ensures FirstOfAny(s, delimiters, base) == FirstOf(s, delimiters[0], base)
    decreases |s| - base
  {
    if base < |s| {
      FirstOfOne(s, delimiters, base + 1);
    }
  }

  lemma {:induction false} OneDelimiter(s: string, delimiters: string, base: nat)
    requires base <= |s| && |delimiters| == 1
    ensures SplitAny(s, delimiters, base) == SplitFrom(s, delimiters[0], base)
    decreases |s| - base
  {
    FirstOfOne(s, delimiters, base);
    var f := FirstOfAny(s, delimiters, base);
    if f < |s| {
      var next := f + 1;
      OneDelimiter(s, delimiters, next);
      SplitAt(s, delimiters, base, f, next);
      SplitFromAt(s, delimiters[0], base, f, next);
    }
  }

  lemma SplitFromAt(s: string, c: char, base: nat, f: nat, next: nat)
    requires base <= |s| && f == FirstOf(s, c, base) && next == f + 1 <= |s|
    ensures SplitFrom(s, c, base) == [s[base..f]] + SplitFrom(s, c, next)
  {
  }

  lemma SplitAt(s: string, delimiters: string, base: nat, f: nat, next: nat)
    requires base <= |s| && f == FirstOfAny(s, delimiters, base) && next == f + 1 <= |s|
    ensures SplitAny(s, delimiters, base) == [s[base..f]] + SplitAny(s, delimiters, next)
  {
  }

  /** The parts with the separators between them. */
  ghost function Woven(parts: seq<string>, separators: string): string
    requires |parts| == |separators| + 1
  {
    if |parts| == 1 then parts[0] else parts[0] + [separators[0]] + Woven(parts[1..], separators[1..])
  }

  lemma WovenFirst(first: string, c: char, parts: seq<string>, separators: string)
    requires |parts| == |separators| + 1
    ensures Woven([first] + parts, [c] + separators) == first + [c] + Woven(parts, separators)
  {
    assert ([first] + parts)[1..] == parts && ([c] + separators)[1..] == separators;
  }

  /** `separators` are delimiters, and the only ones in `t`, where they stand between the parts. */
  ghost predicate Cuts(t: string, delimiters: string, parts: seq<string>, separators: string) {
    && |parts| == |separators| + 1 && Woven(parts, separators) == t
    && (forall i :: 0 <= i < |separators| ==> separators[i] in delimiters)
    && (forall i :: 0 <= i < |parts| ==> NoneOf(parts[i], delimiters))
  }

  lemma CutsOnce(t: string, delimiters: string)
    requires NoneOf(t, delimiters)
    ensures Cuts(t, delimiters, [t], "")
  {
  }

  lemma CutsFirst(first: string, c: char, t: string, delimiters: string, parts: seq<string>, separators: string)
    requires NoneOf(first, delimiters) && c in delimiters && Cuts(t, delimiters, parts, separators)
    ensures Cuts(first + [c] + t, delimiters, [first] + parts, [c] + separators)
  {
    WovenFirst(first, c, parts, separators);
  }

  /** What a split cuts out is nothing but delimiters, one between two parts, and no part holds one. */
  lemma {:induction false} SplitCovers(s: string, delimiters: string, base: nat) returns (separators: string)
    requires base <= |s|
    ensures Cuts(s[base..], delimiters, SplitAny(s, delimiters, base), separators)
    decreases |s| - base
  {
    var f := FirstOfAny(s, delimiters, base);
    if f == |s| {
      separators := "";
      assert s[base..f] == s[base..];
      CutsOnce(s[base..], delimiters);
    } else {
      var next := f + 1;
      var rest := SplitCovers(s, delimiters, next);
      separators := [s[f]] + rest;
      SplitAt(s, delimiters, base, f, next);
      CutsFirst(s[base..f], s[f], s[next..], delimiters, SplitAny(s, delimiters, next), rest);
      Around(s, base, f);
    }
  }

  // ---------- one delimiter ----------

  function Join(things: seq<string>, c: char): string {
    if things == [] then ""
    else if |things| == 1 then things[0]
    else things[0] + [c] + Join(things[1..], c)
  }

  /** Joining the parts restores the string. */
  lemma {:induction false} JoinSplit(s: string, c: char, base: nat)
    requires base <= |s|
    ensures Join(SplitFrom(s, c, base), c) == s[base..]
    decreases |s| - base
  {
    var f := FirstOf(s, c, base);
    if f < |s| {
      JoinSplit(s, c, f + 1);
      JoinFirst(s[base..f], SplitFrom(s, c, f + 1), c);
      Around(s, base, f);
    }
  }

  lemma JoinFirst(first: string, rest: seq<string>, c: char)
    requires rest != []
    ensures Join([first] + rest, c) == first + [c] + Join(rest, c)
  {
    assert ([first] + rest)[1..] == rest;
  }

  lemma Around(s: string, base: nat, f: nat)
    requires base <= f < |s|
    ensures s[base..] == s[base..f] + [s[f]] + s[f + 1..]
  {
  }

  ghost predicate AllFree(things: seq<string>, c: char) { forall i :: 0 <= i < |things| ==> Free(things[i], c) }

  lemma FirstOfPart(s: string, c: char, base: nat, end: nat)
    requires base <= end <= |s| && Free(s[base..end], c) && (end == |s| || s[end] == c)
    ensures FirstOf(s, c, base) == end
  {
  }

  /** The first part, the separator and the rest of `s` from `base` on. */
  lemma JoinParts(t: string, c: char, rest: string, s: string, base: nat, end: nat)
    requires base <= |s| && s[base..] == t + [c] + rest && end == base + |t|
    ensures end < |s| && s[base..end] == t && s[end] == c && s[end + 1..] == rest
  {
    assert s[base..end] == s[base..][..|t|] == t;
    assert s[end] == s[base..][|t|];
    assert s[end + 1..] == s[base..][|t| + 1..] == rest;
  }

  /** Splitting at the separator recovers the parts, if none contains it. */
  lemma {:induction false} SplitJoin(things: seq<string>, c: char, s: string, base: nat)
    requires things != [] && AllFree(things, c) && base <= |s| && s[base..] == Join(things, c)
    ensures SplitFrom(s, c, base) == things
    decreases |things|
  {
    var end: nat := base + |things[0]|;
    if |things| == 1 {
      assert s[base..end] == things[0];
      FirstOfPart(s, c, base, end);
    } else {
      JoinParts(things[0], c, Join(things[1..], c), s, base, end);
      FirstOfPart(s, c, base, end);
      SplitJoin(things[1..], c, s, end + 1);
    }
  }

  /** The parts of a whole string. */
  lemma SplitsBack(things: seq<string>, c: char)
    requires things != [] && AllFree(things, c)
    ensures SplitFrom(Join(things, c), c, 0) == things
  {
    var s := Join(things, c);
    assert s[0..] == s;
    SplitJoin(things, c, s, 0);
  }

  lemma {:induction false} JoinFree(things: seq<string>, c: char, d: char)
    requires AllFree(things, d) && c != d
    ensures Free(Join(things, c), d)
  {
    if |things| > 1 {
      JoinFree(things[1..], c, d);
    }
  }
}
