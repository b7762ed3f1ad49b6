/** `IsValidEntryName`, which the writer and the reader share. */
module EntryNames {
  import opened Common

  const MAX_NAME: nat := 0xffff

  /** How many of the highest bits are ones before the first zero. */
  function LeadingOnes(x: byte): nat {
    if x < 0x80 then 0 else if x < 0xc0 then 1 else if x < 0xe0 then 2 else if x < 0xf0 then 3
    else if x < 0xf8 then 4 else if x < 0xfc then 5 else if x < 0xfe then 6 else if x < 0xff then 7 else 8
  }

  /** Shifting the byte left by one, as `(x & 0x7f) << 1` does, drops one leading one. */
  lemma ShiftDropsOne(x: byte)
    requires x >= 0x80
    ensures (x % 128) * 2 < 256 && LeadingOnes((x % 128) * 2) == LeadingOnes(x) - 1
  {
  }

  /** A lead byte announces one continuation byte for each leading one after the first. */
  function Continuations(lead: byte): nat
    requires 0xc0 <= lead <= 0xfd
  {
    LeadingOnes(lead) - 1
  }

  predicate IsContinuation(b: byte) { 0x80 <= b < 0xc0 }

  /** The first `n` bytes are there and are continuation bytes. */
  predicate Continues(s: seq<byte>, n: nat) {
    n <= |s| && forall i :: 0 <= i < n ==> IsContinuation(s[i])
  }

  /** Non-zero single bytes, and lead bytes followed by the continuation bytes they announce. */
  predicate WellFormed(s: seq<byte>) {
    if s == [] then true
    else if s[0] < 0x80 then s[0] != 0 && WellFormed(s[1..])
    else
      && 0xc0 <= s[0] <= 0xfd
      && Continues(s[1..], Continuations(s[0]))
      && WellFormed(s[1 + Continuations(s[0])..])
  }

  // ---------- the same, as a string of characters ----------

  /** How long the character is that begins with this byte; 0 if none does. */
  function CharLength(lead: byte): nat {
    if 0x01 <= lead <= 0x7f then 1
    else if 0xc0 <= lead <= 0xdf then 2
    else if 0xe0 <= lead <= 0xef then 3
    else if 0xf0 <= lead <= 0xf7 then 4
    else if 0xf8 <= lead <= 0xfb then 5
    else if 0xfc <= lead <= 0xfd then 6
    else 0
  }

  ghost predicate Char(c: seq<byte>) {
    c != [] && |c| == CharLength(c[0]) && forall i :: 0 < i < |c| ==> 0x80 <= c[i] <= 0xbf
  }

  ghost function Concatenated(cs: seq<seq<byte>>): seq<byte> {
    if cs == [] then [] else cs[0] + Concatenated(cs[1..])
  }

  ghost predicate Chars(cs: seq<seq<byte>>) { forall i :: 0 <= i < |cs| ==> Char(cs[i]) }

  lemma FirstChar(s: seq<byte>)
    requires s != []
    ensures WellFormed(s)
       <==> 0 < CharLength(s[0]) <= |s| && Char(s[..CharLength(s[0])]) && WellFormed(s[CharLength(s[0])..])
  {
    var n := CharLength(s[0]);
    if 0 < n <= |s| {
      var c := s[..n];
      assert forall i :: 0 < i < n ==> c[i] == s[1..][i - 1];
      assert forall i :: 0 <= i < n - 1 ==> s[1..][i] == c[i + 1];
    }
  }

  lemma {:induction false} CharsOf(s: seq<byte>) returns (cs: seq<seq<byte>>)
    requires WellFormed(s)
    ensures Chars(cs) && Concatenated(cs) == s
    decreases |s|
  {
    if s == [] {
      cs := [];
    } else {
      var c, tail := SplitFirst(s);
      var rest := CharsOf(tail);
      cs := Prepended(c, rest);
    }
  }

  lemma SplitFirst(s: seq<byte>) returns (c: seq<byte>, tail: seq<byte>)
    requires s != [] && WellFormed(s)
    ensures Char(c) && WellFormed(tail) && s == c + tail
  {
    FirstChar(s);
    c, tail := s[..CharLength(s[0])], s[CharLength(s[0])..];
  }

  lemma Prepended(c: seq<byte>, rest: seq<seq<byte>>) returns (cs: seq<seq<byte>>)
    requires Char(c) && Chars(rest)
    ensures Chars(cs) && Concatenated(cs) == c + Concatenated(rest)
  {
    cs := [c] + rest;
    assert cs[1..] == rest;
  }

  lemma {:induction false} CharsWellFormed(cs: seq<seq<byte>>)
    requires Chars(cs)
    ensures WellFormed(Concatenated(cs))
  {
    if cs != [] {
      CharsWellFormed(cs[1..]);
      var s, n := Concatenated(cs), |cs[0]|;
      assert s[0] == cs[0][0] && s[..n] == cs[0] && s[n..] == Concatenated(cs[1..]);
      FirstChar(s);
    }
  }

  /** A name that fits its 16-bit length field and is well formed. */
  predicate ValidName(name: seq<byte>) { |name| <= MAX_NAME && WellFormed(name) }

  /** A name is valid if and only if it is a string of characters of one to six bytes, and not too long. */
  lemma ValidExact(name: seq<byte>)
    ensures ValidName(name) <==> |name| <= 65535 && exists cs :: Chars(cs) && Concatenated(cs) == name
  {
    if WellFormed(name) {
      var cs := CharsOf(name);
    }
    if cs :| Chars(cs) && Concatenated(cs) == name {
      CharsWellFormed(cs);
    }
  }

  /** The scan of the source: an index and, inside a sequence, the shifting lead byte. */
  method IsValidEntryName(name: seq<byte>) returns (valid: bool)
    ensures valid == ValidName(name)
  {
    if |name| > MAX_NAME {
      return false;
    }
    var i: nat := 0;
    while i < |name|
      invariant i <= |name|
      invariant WellFormed(name) == WellFormed(name[i..])
    {
      var lead := name[i];
      if lead == 0 {
        return false;
      } else if lead < 0x80 {
        assert name[i..][1..] == name[i + 1..];
        i := i + 1;
      } else if lead < 0xc0 || lead >= 0xfe {
        return false;
      } else {
        var ok := ScanSequence(name, i);
        if !ok {
          return false;
        }
        assert name[i..][1 + Continuations(lead)..] == name[i + 1 + Continuations(lead)..];
        i := i + 1 + Continuations(lead);
      }
    }
    assert name[|name|..] == [];
    return true;
  }

  /** The inner loop: continuation bytes as long as the shifted lead byte has its highest bit set. */
  method ScanSequence(name: seq<byte>, i: nat) returns (ok: bool)
    requires i < |name| && 0xc0 <= name[i] <= 0xfd
    ensures ok == Continues(name[i..][1..], Continuations(name[i]))
  {
    var rest := name[i..][1..];
    ShiftDropsOne(name[i]);
    var first: byte := (name[i] % 128) * 2;
    var k: nat := 0;
    while first >= 0x80
      invariant k + LeadingOnes(first) == Continuations(name[i])
      invariant Continues(rest, k)
      decreases LeadingOnes(first)
    {
      if i + 1 + k == |name| {
        return false;
      }
      assert rest[k] == name[i + 1 + k];
      if !IsContinuation(name[i + 1 + k]) {
        return false;
      }
      ShiftDropsOne(first);
      first := (first % 128) * 2;
      k := k + 1;
    }
    return true;
  }
}
