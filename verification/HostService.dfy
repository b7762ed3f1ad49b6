/** Taking a service string apart into the serial number of a device and a command for it. */
module HostService {
  import opened Common
  import opened Strings

  const DEVICE_WORDS: seq<string> := ["usb", "product", "model", "device", "localfilesystem"]
  const TCP: string := "tcp"
  const UDP: string := "udp"
  const VSOCK: string := "vsock"

  predicate AllDigits(s: string) { forall i :: 0 <= i < |s| ==> '0' <= s[i] <= '9' }

  /** The string starts with the word and a colon. */
  predicate Leads(word: string, s: string) { word + ":" <= s }

  function Colon(s: string, from: nat): (r: Option<nat>)
    requires from <= |s|
    ensures r.Some? ==> from <= r.value < |s| && s[r.value] == ':'
  {
    var f := FirstOf(s, ':', from);
    if f == |s| then None else Some(f)
  }

  /** The first `p` bytes end the serial; they must be followed by something. */
  function Finish(full: string, p: nat): Option<(string, string)>
    requires 0 < p <= |full| && full[p - 1] == ':'
  {
    if p == |full| then None else Some((full[..p - 1], full[p..]))
  }

  /** At `p` comes a port and a colon, or the command. */
  function AfterAddress(full: string, p: nat): Option<(string, string)>
    requires 0 < p <= |full| && full[p - 1] == ':'
  {
    match Colon(full, p)
    case None => Finish(full, p)
    case Some(c) => if AllDigits(full[p..c]) then Finish(full, c + 1) else Finish(full, p)
  }

  function PlainAddress(full: string, p: nat): Option<(string, string)>
    requires p <= |full|
  {
    match Colon(full, p)
    case None => None
    case Some(c) => AfterAddress(full, c + 1)
  }

  function Address(full: string, p: nat): Option<(string, string)>
    requires p <= |full|
  {
    if p < |full| && full[p] == '[' then
      var q := FirstOf(full, ']', p);
      if q == |full| then PlainAddress(full, p) else AfterBracket(full, q)
    else PlainAddress(full, p)
  }

  /** After the bracket at `q` there must be a colon. */
  function AfterBracket(full: string, q: nat): Option<(string, string)>
    requires q < |full|
  {
    if q + 1 == |full| || full[q + 1] != ':' then None else AfterAddress(full, q + 2)
  }

  /** How long the device word at the start is, with its colon; 0 if there is none. */
  function DeviceWord(full: string, i: nat): (n: nat)
    requires i <= |DEVICE_WORDS|
    ensures n <= |full|
    decreases |DEVICE_WORDS| - i
  {
    if i == |DEVICE_WORDS| then 0
    else if Leads(DEVICE_WORDS[i], full) then |DEVICE_WORDS[i]| + 1
    else DeviceWord(full, i + 1)
  }

  function AfterProtocol(full: string): (p: nat)
    ensures p <= |full|
  {
    if Leads(TCP, full) || Leads(UDP, full) then 4 else 0
  }

  function AfterVsock(full: string, p: nat): (q: nat)
    requires p <= |full|
    ensures p <= q <= |full|
  {
    if Leads(VSOCK, full[p..]) then p + 6 else p
  }

  /** `parse_host_service`. */
  function ParseHostService(full: string): Option<(string, string)> {
    if full == "" then None
    else
      var n := DeviceWord(full, 0);
      if n > 0 then
        match Colon(full, n)
        case None => None
        case Some(c) => Finish(full, c + 1)
      else
        var p := AfterProtocol(full);
        if p == |full| then None else Address(full, AfterVsock(full, p))
  }

  // ---------- nothing is lost ----------

  ghost predicate Splits(full: string, r: Option<(string, string)>) {
    r.Some? ==> r.value.0 + ":" + r.value.1 == full && r.value.1 != ""
  }

  lemma FinishSplits(full: string, p: nat)
    requires 0 < p <= |full| && full[p - 1] == ':'
    ensures Splits(full, Finish(full, p))
  {
    assert full[..p - 1] + ":" + full[p..] == full;
  }

  lemma AfterAddressSplits(full: string, p: nat)
    requires 0 < p <= |full| && full[p - 1] == ':'
    ensures Splits(full, AfterAddress(full, p))
  {
    FinishSplits(full, p);
    var c := Colon(full, p);
    if c.Some? { FinishSplits(full, c.value + 1); }
  }

  lemma PlainSplits(full: string, p: nat)
    requires p <= |full|
    ensures Splits(full, PlainAddress(full, p))
  {
    var c := Colon(full, p);
    if c.Some? { AfterAddressSplits(full, c.value + 1); }
  }

  lemma AfterBracketSplits(full: string, q: nat)
    requires q < |full|
    ensures Splits(full, AfterBracket(full, q))
  {
    if q + 1 < |full| && full[q + 1] == ':' { AfterAddressSplits(full, q + 2); }
  }

  lemma AddressSplits(full: string, p: nat)
    requires p <= |full|
    ensures Splits(full, Address(full, p))
  {
    PlainSplits(full, p);
    var q := FirstOf(full, ']', p);
    if q < |full| { AfterBracketSplits(full, q); }
  }

  /** Whenever the parse succeeds, the parts and the colon between them are the whole input. */
  lemma ParseSplits(full: string)
    ensures Splits(full, ParseHostService(full))
  {
    if full != "" {
      var n := DeviceWord(full, 0);
      var c := Colon(full, n);
      if c.Some? { FinishSplits(full, c.value + 1); }
      AddressSplits(full, AfterVsock(full, AfterProtocol(full)));
    }
  }

  // ---------- the serial numbers that read back ----------

  /** A port at the start: digits, or nothing, and a colon. */
  ghost predicate StartsWithPort(s: string) {
    exists k :: 0 <= k < |s| && s[k] == ':' && AllDigits(s[..k])
  }

  datatype Serial =
    | Named(word: string, name: string)
    | Bare(protocol: seq<string>, host: string)
    | Ported(protocol: seq<string>, host: string, port: string)
    | V6(protocol: seq<string>, address: string)
    | V6Ported(protocol: seq<string>, address: string, port: string)

  /** The protocol words, each with its colon. */
  function Words(protocol: seq<string>): string {
    if protocol == [] then "" else protocol[0] + ":" + Words(protocol[1..])
  }

  function Text(s: Serial): string {
    match s
    case Named(word, name) => word + ":" + name
    case Bare(protocol, host) => Words(protocol) + host
    case Ported(protocol, host, port) => Words(protocol) + (host + ":" + port)
    case V6(protocol, address) => Words(protocol) + ("[" + address + "]")
    case V6Ported(protocol, address, port) => Words(protocol) + ("[" + address + "]" + ":" + port)
  }

  ghost predicate ProtocolOk(protocol: seq<string>) {
    protocol in {[], ["tcp"], ["udp"], ["vsock"], ["tcp", "vsock"], ["udp", "vsock"]}
  }

  ghost predicate Prefix(word: string) { word in {"usb", "product", "model", "device", "localfilesystem"} }

  /** A host name that is not taken for a word where it stands. */
  ghost predicate Unreserved(protocol: seq<string>, host: string) {
    && Free(host, ':')
    && (protocol == [] ==> !Prefix(host) && host != "tcp" && host != "udp")
    && (protocol == [] || protocol == ["tcp"] || protocol == ["udp"] ==> host != "vsock")
  }

  /** What begins like an IPv6 address does not end like one. */
  ghost predicate Unclosed(s: string) { "[" <= s ==> Free(s, ']') }

  ghost predicate HostOk(protocol: seq<string>, host: string) { Unreserved(protocol, host) && !("[" <= host) }

  ghost predicate SerialOk(s: Serial) {
    match s
    case Named(word, name) => Prefix(word) && Free(name, ':')
    case Bare(protocol, host) => ProtocolOk(protocol) && HostOk(protocol, host)
    case Ported(protocol, host, port) => ProtocolOk(protocol) && HostOk(protocol, host) && AllDigits(port)
    case V6(protocol, address) => ProtocolOk(protocol) && Free(address, ']')
    case V6Ported(protocol, address, port) => ProtocolOk(protocol) && Free(address, ']') && AllDigits(port)
  }

  // ---------- words ----------

  /** Two colon-free words that lead the same string are equal. */
  lemma LeadsOnly(word: string, host: string, rest: string)
    requires Free(word, ':') && Free(host, ':')
    ensures Leads(word, host + ":" + rest) <==> word == host
  {
    var s := host + ":" + rest;
    if Leads(word, s) {
      assert s[|word|] == (word + ":")[|word|] == ':' && s[|host|] == ':';
      FirstOfPart(s, ':', 0, |host|);
      assert s[0..|host|] == host && s[0..|word|] == (word + ":")[..|word|] == word;
      FirstOfPart(s, ':', 0, |word|);
    }
  }

  lemma PrefixExact(word: string)
    ensures Prefix(word) <==> word in DEVICE_WORDS
  {
    assert DEVICE_WORDS[0] == "usb" && DEVICE_WORDS[1] == "product" && DEVICE_WORDS[2] == "model";
    assert DEVICE_WORDS[3] == "device" && DEVICE_WORDS[4] == "localfilesystem";
  }

  lemma WordsFree()
    ensures forall i :: 0 <= i < |DEVICE_WORDS| ==> Free(DEVICE_WORDS[i], ':') && DEVICE_WORDS[i] != ""
    ensures Free(TCP, ':') && Free(UDP, ':') && Free(VSOCK, ':')
  {
  }

  lemma {:induction false} NoDeviceWord(full: string, i: nat)
    requires i <= |DEVICE_WORDS| && forall k :: i <= k < |DEVICE_WORDS| ==> !Leads(DEVICE_WORDS[k], full)
    ensures DeviceWord(full, i) == 0
    decreases |DEVICE_WORDS| - i
  {
    if i < |DEVICE_WORDS| {
      NoDeviceWord(full, i + 1);
    }
  }

  /** No device word leads a string that another word leads. */
  lemma OtherWord(word: string, rest: string)
    requires Free(word, ':') && word !in DEVICE_WORDS
    ensures DeviceWord(word + ":" + rest, 0) == 0
  {
    WordsFree();
    forall k | 0 <= k < |DEVICE_WORDS|
      ensures !Leads(DEVICE_WORDS[k], word + ":" + rest)
    {
      LeadsOnly(DEVICE_WORDS[k], word, rest);
    }
    NoDeviceWord(word + ":" + rest, 0);
  }

  /** Nothing at the start of `rest` would be taken for a word in this place. */
  ghost predicate Unled(protocol: seq<string>, rest: string) {
    && rest != ""
    && (protocol == [] ==> DeviceWord(rest, 0) == 0 && !Leads(TCP, rest) && !Leads(UDP, rest))
    && (protocol == [] || protocol == [TCP] || protocol == [UDP] ==> !Leads(VSOCK, rest))
  }

  lemma StartBare(rest: string)
    requires Unled([], rest)
    ensures ParseHostService(rest) == Address(rest, 0)
  {
    assert rest[0..] == rest;
  }

  lemma StartNet(word: string, rest: string)
    requires word == TCP || word == UDP
    ensures DeviceWord(word + ":" + rest, 0) == 0 && AfterProtocol(word + ":" + rest) == 4
    ensures (word + ":" + rest)[4..] == rest
  {
    WordsFree();
    OtherWord(word, rest);
    LeadsOnly(TCP, word, rest);
    LeadsOnly(UDP, word, rest);
  }

  lemma StartVsock(rest: string)
    requires rest != ""
    ensures ParseHostService(VSOCK + ":" + rest) == Address(VSOCK + ":" + rest, 6)
  {
    var full := VSOCK + ":" + rest;
    WordsFree();
    OtherWord(VSOCK, rest);
    LeadsOnly(TCP, VSOCK, rest);
    LeadsOnly(UDP, VSOCK, rest);
    LeadsOnly(VSOCK, VSOCK, rest);
    assert full[0..] == full;
  }

  lemma StartNetVsock(word: string, rest: string)
    requires (word == TCP || word == UDP) && rest != ""
    ensures var full := word + ":" + (VSOCK + ":" + rest);
      ParseHostService(full) == Address(full, 10)
  {
    WordsFree();
    StartNet(word, VSOCK + ":" + rest);
    LeadsOnly(VSOCK, VSOCK, rest);
  }

  lemma StartNetPlain(word: string, rest: string)
    requires (word == TCP || word == UDP) && rest != "" && !Leads(VSOCK, rest)
    ensures ParseHostService(word + ":" + rest) == Address(word + ":" + rest, 4)
  {
    StartNet(word, rest);
  }

  lemma WordsOne(w: string, rest: string)
    ensures Words([w]) + rest == w + ":" + rest && |Words([w])| == |w| + 1
  {
    assert [w][1..] == [];
    assert Words([w]) == w + ":" + "";
  }

  lemma WordsTwo(w: string, v: string, rest: string)
    ensures Words([w, v]) + rest == w + ":" + (v + ":" + rest) && |Words([w, v])| == |w| + |v| + 2
  {
    assert [w, v][1..] == [v];
    WordsOne(v, rest);
    assert Words([w, v]) + rest == w + ":" + (Words([v]) + rest);
  }

  /** The parser skips exactly the protocol words. */
  lemma SkipsProtocol(protocol: seq<string>, rest: string, full: string, p: nat)
    requires ProtocolOk(protocol) && Unled(protocol, rest) && full == Words(protocol) + rest && p == |Words(protocol)|
    ensures ParseHostService(full) == Address(full, p)
  {
    if protocol == [] {
      assert full == rest;
      StartBare(rest);
    } else if |protocol| == 1 {
      var word := protocol[0];
      assert protocol == [word];
      WordsOne(word, rest);
      if word == VSOCK { StartVsock(rest); } else { StartNetPlain(word, rest); }
    } else {
      var word := protocol[0];
      assert protocol == [word, VSOCK];
      WordsTwo(word, VSOCK, rest);
      StartNetVsock(word, rest);
    }
  }

  // ---------- addresses and ports ----------

  /** `full` from `p` on is `t`, a colon and `rest`. */
  ghost predicate Then(full: string, p: nat, t: string, rest: string) {
    p <= |full| && full[p..] == t + ":" + rest
  }

  lemma ThenColon(full: string, p: nat, t: string, rest: string, q: nat)
    requires Then(full, p, t, rest) && q == p + |t|
    ensures q < |full| && full[p..q] == t && full[q] == ':' && full[q + 1..] == rest
    ensures Free(t, ':') ==> Colon(full, p) == Some(q)
  {
    assert t + ":" + rest == t + [':'] + rest;
    JoinParts(t, ':', rest, full, p, q);
    if Free(t, ':') { FirstOfPart(full, ':', p, q); }
  }

  lemma DigitsFree(port: string)
    requires AllDigits(port)
    ensures Free(port, ':')
  {
  }

  /** With a port, the command may be anything but empty. */
  lemma ReadsPort(full: string, q: nat, port: string, command: string, end: nat)
    requires 0 < q <= |full| && full[q - 1] == ':' && AllDigits(port)
    requires Then(full, q, port, command) && end == q + |port|
    ensures AfterAddress(full, q) == if command == "" then None else Some((full[..end], command))
  {
    DigitsFree(port);
    ThenColon(full, q, port, command, end);
  }

  /** Without one, the command must not look as if it started with a port. */
  lemma ReadsCommand(full: string, q: nat, command: string)
    requires 0 < q <= |full| && full[q - 1] == ':' && full[q..] == command
    ensures AfterAddress(full, q) == Some((full[..q - 1], command)) <==> command != "" && !StartsWithPort(command)
  {
    var f := FirstOf(full, ':', q);
    if f == |full| {
      assert full[q..f] == command;
      assert !StartsWithPort(command);
    } else {
      var k := f - q;
      assert command[k] == ':' && command[..k] == full[q..f];
      if AllDigits(full[q..f]) {
        assert StartsWithPort(command);
      } else {
        FirstColonDecides(command, k);
      }
    }
  }

  lemma FirstColonDecides(s: string, k: nat)
    requires k < |s| && s[k] == ':' && Free(s[..k], ':') && !AllDigits(s[..k])
    ensures !StartsWithPort(s)
  {
    forall j | 0 <= j < |s| && s[j] == ':'
      ensures !AllDigits(s[..j])
    {
      assert j >= k;
      var i :| 0 <= i < k && !('0' <= s[..k][i] <= '9');
      assert s[..j][i] == s[i];
    }
  }

  // ---------- the whole serial ----------

  lemma UnledHost(protocol: seq<string>, host: string, rest: string)
    requires Unreserved(protocol, host)
    ensures Unled(protocol, host + ":" + rest)
  {
    WordsFree();
    PrefixExact(host);
    if protocol == [] { OtherWord(host, rest); }
    LeadsOnly(TCP, host, rest);
    LeadsOnly(UDP, host, rest);
    LeadsOnly(VSOCK, host, rest);
  }

  lemma UnledBracket(protocol: seq<string>, rest: string)
    requires rest != "" && rest[0] == '['
    ensures Unled(protocol, rest)
  {
    WordsFree();
    forall k | 0 <= k < |DEVICE_WORDS|
      ensures !Leads(DEVICE_WORDS[k], rest)
    {
      assert (DEVICE_WORDS[k] + ":")[0] == DEVICE_WORDS[k][0] != '[';
    }
    NoDeviceWord(rest, 0);
  }

  lemma NoBracket(full: string, p: nat, host: string, rest: string)
    requires Then(full, p, host, rest) && Unclosed(host + ":" + rest)
    ensures Address(full, p) == PlainAddress(full, p)
  {
    if p < |full| && full[p] == '[' {
      assert full[p..][0] == '[';
      assert "[" <= full[p..];
      assert full[p..|full|] == full[p..];
      FirstOfPart(full, ']', p, |full|);
    }
  }

  /** The address of a host name ends at its colon, `e`. */
  lemma HostAddress(full: string, p: nat, host: string, rest: string, e: nat, q: nat)
    requires Then(full, p, host, rest) && Free(host, ':') && Unclosed(host + ":" + rest)
    requires e == p + |host| && q == e + 1
    ensures q <= |full| && full[e] == ':' && full[q..] == rest && Address(full, p) == AfterAddress(full, q)
  {
    ThenColon(full, p, host, rest, e);
    NoBracket(full, p, host, rest);
  }

  lemma BracketEnds(full: string, p: nat, t: string, address: string, e: nat, b: nat)
    requires e <= |full| && p < b && e == b + 1 && full[p..e] == t && t == "[" + address + "]" && Free(address, ']')
    ensures full[p] == '[' && FirstOf(full, ']', p) == b
  {
    assert full[p] == t[0];
    assert full[b] == t[b - p];
    assert full[p..b] == t[..b - p] == "[" + address;
    FirstOfPart(full, ']', p, b);
  }

  lemma BracketAddress(full: string, p: nat, t: string, address: string, rest: string, e: nat, q: nat)
    requires Then(full, p, t, rest) && t == "[" + address + "]" && Free(address, ']') && e == p + |t| && q == e + 1
    ensures q <= |full| && full[e] == ':' && full[q..] == rest && Address(full, p) == AfterAddress(full, q)
  {
    var b: nat := e - 1;
    ThenColon(full, p, t, rest, e);
    BracketEnds(full, p, t, address, e, b);
    PastBracket(full, p, b, e, q);
  }

  lemma PastBracket(full: string, p: nat, b: nat, e: nat, q: nat)
    requires p < |full| && full[p] == '[' && FirstOf(full, ']', p) == b && e == b + 1 && q == e + 1
    requires e < |full| && full[e] == ':'
    ensures Address(full, p) == AfterAddress(full, q)
  {
    assert AfterBracket(full, b) == AfterAddress(full, q);
  }

  lemma AtRest(words: string, rest: string, full: string)
    requires full == words + rest
    ensures full[|words|..] == rest && full[..|words|] == words
  {
  }

  /** What of `full` lies before the colon at `end`. */
  lemma Before(words: string, t: string, rest: string, full: string, end: nat)
    requires full == words + (t + ":" + rest) && end == |words| + |t|
    ensures full[..end] == words + t
  {
    assert full == (words + t) + (":" + rest);
  }

  /** After the protocol words comes `t`, an address that ends at its colon. */
  ghost predicate Reaches(protocol: seq<string>, t: string, rest: string, full: string, e: nat, q: nat) {
    && full == Words(protocol) + (t + ":" + rest) && e == |Words(protocol)| + |t| && q == e + 1 <= |full|
    && full[e] == ':' && full[q..] == rest
    && ParseHostService(full) == AfterAddress(full, q)
  }

  lemma ReachesHost(protocol: seq<string>, host: string, rest: string, full: string, e: nat, q: nat)
    requires ProtocolOk(protocol) && Unreserved(protocol, host) && Unclosed(host + ":" + rest)
    requires full == Words(protocol) + (host + ":" + rest)
    requires e == |Words(protocol)| + |host| && q == e + 1
    ensures Reaches(protocol, host, rest, full, e, q)
  {
    var p: nat := |Words(protocol)|;
    UnledHost(protocol, host, rest);
    SkipsProtocol(protocol, host + ":" + rest, full, p);
    AtRest(Words(protocol), host + ":" + rest, full);
    HostAddress(full, p, host, rest, e, q);
  }

  lemma ReachesBracket(protocol: seq<string>, t: string, address: string, rest: string, full: string, e: nat, q: nat)
    requires ProtocolOk(protocol) && Free(address, ']') && t == "[" + address + "]"
    requires full == Words(protocol) + (t + ":" + rest) && e == |Words(protocol)| + |t| && q == e + 1
    ensures Reaches(protocol, t, rest, full, e, q)
  {
    var p: nat := |Words(protocol)|;
    UnledBracket(protocol, t + ":" + rest);
    SkipsProtocol(protocol, t + ":" + rest, full, p);
    AtRest(Words(protocol), t + ":" + rest, full);
    BracketAddress(full, p, t, address, rest, e, q);
  }

  lemma PortlessReads(protocol: seq<string>, t: string, command: string, full: string, e: nat, q: nat)
    requires Reaches(protocol, t, command, full, e, q)
    ensures ParseHostService(full) == Some((Words(protocol) + t, command)) <==>
      command != "" && !StartsWithPort(command)
  {
    ReadsCommand(full, q, command);
    Before(Words(protocol), t, command, full, e);
  }

  lemma PortedReads(protocol: seq<string>, t: string, port: string, command: string, full: string, e: nat, q: nat)
    requires Reaches(protocol, t, port + ":" + command, full, e, q) && AllDigits(port)
    ensures ParseHostService(full) ==
      if command == "" then None else Some((Words(protocol) + (t + ":" + port), command))
  {
    var end: nat := q + |port|;
    ReadsPort(full, q, port, command, end);
    assert t + ":" + (port + ":" + command) == (t + ":" + port) + ":" + command;
    Before(Words(protocol), t + ":" + port, command, full, end);
  }

  lemma {:induction false} FindsDeviceWord(i: nat, j: nat, rest: string)
    requires i <= j < |DEVICE_WORDS|
    ensures DeviceWord(DEVICE_WORDS[j] + ":" + rest, i) == |DEVICE_WORDS[j]| + 1
    decreases j - i
  {
    WordsFree();
    LeadsOnly(DEVICE_WORDS[i], DEVICE_WORDS[j], rest);
    if i < j && DEVICE_WORDS[i] != DEVICE_WORDS[j] {
      FindsDeviceWord(i + 1, j, rest);
    }
  }

  lemma NamedReads(word: string, name: string, command: string, full: string)
    requires Prefix(word) && Free(name, ':') && full == word + ":" + (name + ":" + command)
    ensures ParseHostService(full) == if command == "" then None else Some((word + ":" + name, command))
  {
    PrefixExact(word);
    var j :| 0 <= j < |DEVICE_WORDS| && DEVICE_WORDS[j] == word;
    FindsDeviceWord(0, j, name + ":" + command);
    var p, end: nat := |word| + 1, |word| + 1 + |name|;
    AtRest(word + ":", name + ":" + command, full);
    ThenColon(full, p, name, command, end);
    Before(word + ":", name, command, full, end);
  }

  /** Whether the command must not begin like a port: then the serial has none of its own. */
  predicate Portless(s: Serial) { s.Bare? || s.V6? }

  ghost predicate Inverts(text: string, command: string, portless: bool) {
    var inverted := ParseHostService(text + ":" + command) == Some((text, command));
    inverted <==> command != "" && (portless ==> !StartsWithPort(command))
  }

  lemma Regroups(words: string, t: string, command: string)
    ensures words + t + ":" + command == words + (t + ":" + command)
  {
  }

  lemma PortRegroups(words: string, t: string, port: string, command: string)
    ensures words + (t + ":" + port) + ":" + command == words + (t + ":" + (port + ":" + command))
  {
    assert (t + ":" + port) + ":" + command == t + ":" + (port + ":" + command);
  }

  lemma BareInverts(protocol: seq<string>, host: string, command: string)
    requires ProtocolOk(protocol) && Unreserved(protocol, host) && Unclosed(host + ":" + command)
    ensures Inverts(Words(protocol) + host, command, true)
  {
    var full, e: nat := Words(protocol) + host + ":" + command, |Words(protocol) + host|;
    var q: nat := e + 1;
    Regroups(Words(protocol), host, command);
    ReachesHost(protocol, host, command, full, e, q);
    PortlessReads(protocol, host, command, full, e, q);
  }

  lemma PortedInverts(protocol: seq<string>, host: string, port: string, command: string)
    requires ProtocolOk(protocol) && Unreserved(protocol, host) && AllDigits(port)
    requires Unclosed(host + ":" + (port + ":" + command))
    ensures Inverts(Words(protocol) + (host + ":" + port), command, false)
  {
    var full, e: nat := Words(protocol) + (host + ":" + port) + ":" + command, |Words(protocol) + host|;
    var q: nat := e + 1;
    PortRegroups(Words(protocol), host, port, command);
    ReachesHost(protocol, host, port + ":" + command, full, e, q);
    PortedReads(protocol, host, port, command, full, e, q);
  }

  lemma V6Inverts(protocol: seq<string>, t: string, address: string, command: string)
    requires ProtocolOk(protocol) && Free(address, ']') && t == "[" + address + "]"
    ensures Inverts(Words(protocol) + t, command, true)
  {
    var full, e: nat := Words(protocol) + t + ":" + command, |Words(protocol) + t|;
    var q: nat := e + 1;
    Regroups(Words(protocol), t, command);
    ReachesBracket(protocol, t, address, command, full, e, q);
    PortlessReads(protocol, t, command, full, e, q);
  }

  lemma V6PortedInverts(protocol: seq<string>, t: string, address: string, port: string, command: string)
    requires ProtocolOk(protocol) && Free(address, ']') && t == "[" + address + "]" && AllDigits(port)
    ensures Inverts(Words(protocol) + (t + ":" + port), command, false)
  {
    var full, e: nat := Words(protocol) + (t + ":" + port) + ":" + command, |Words(protocol) + t|;
    var q: nat := e + 1;
    PortRegroups(Words(protocol), t, port, command);
    ReachesBracket(protocol, t, address, port + ":" + command, full, e, q);
    PortedReads(protocol, t, port, command, full, e, q);
  }

  lemma NamedInverts(word: string, name: string, command: string)
    requires Prefix(word) && Free(name, ':')
    ensures Inverts(word + ":" + name, command, false)
  {
    var full := word + ":" + name + ":" + command;
    assert full == word + ":" + (name + ":" + command);
    NamedReads(word, name, command, full);
  }

  lemma OpensAlike(host: string, rest: string)
    ensures "[" <= host + ":" + rest <==> "[" <= host
  {
    assert (host + ":" + rest)[0] == if host == "" then ':' else host[0];
  }

  /**
   The parser inverts the printer `serial ++ ":" ++ command`, for every well-formed serial, exactly when
   the command is not empty and, for a serial without a port, does not itself begin like a port.
   */
  lemma ParseInverts(s: Serial, command: string)
    requires SerialOk(s)
    ensures ParseHostService(Text(s) + ":" + command) == Some((Text(s), command))
      <==> command != "" && (Portless(s) ==> !StartsWithPort(command))
  {
    assert Inverts(Text(s), command, Portless(s)) by {
      match s
      case Named(word, name) => NamedInverts(word, name, command);
      case Bare(protocol, host) =>
        OpensAlike(host, command);
        BareInverts(protocol, host, command);
      case Ported(protocol, host, port) =>
        OpensAlike(host, port + ":" + command);
        PortedInverts(protocol, host, port, command);
      case V6(protocol, address) => V6Inverts(protocol, "[" + address + "]", address, command);
      case V6Ported(protocol, address, port) => V6PortedInverts(protocol, "[" + address + "]", address, port, command);
    }
  }

  // ---------- the request ----------

  const HOST_SERIAL: string := "host-serial:"

  /** `format_host_command` for a client that names a serial. */
  function FormatHostCommand(serial: string, command: string): string { HOST_SERIAL + serial + ":" + command }

  /** How the server takes such a request apart. */
  function ParseRequest(service: string): Option<(string, string)> {
    if HOST_SERIAL <= service then ParseHostService(service[|HOST_SERIAL|..]) else None
  }

  lemma RequestReads(s: Serial, command: string)
    requires SerialOk(s)
    ensures FormatHostCommand(Text(s), command) == "host-serial:" + Text(s) + ":" + command
    ensures ParseRequest(FormatHostCommand(Text(s), command)) == Some((Text(s), command))
      <==> command != "" && (Portless(s) ==> !StartsWithPort(command))
  {
    var service := FormatHostCommand(Text(s), command);
    assert service == HOST_SERIAL + (Text(s) + ":" + command);
    assert service[|HOST_SERIAL|..] == Text(s) + ":" + command;
    ParseInverts(s, command);
  }
}
