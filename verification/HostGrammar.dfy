/** Exactly which service strings are taken apart, and how. */
module HostGrammar {
  import opened Common
  import opened Strings
  import opened HostService

  /** The serial `s` in front of `command`, as the parser sees it. */
  ghost predicate Fits(s: Serial, command: string) {
    && command != ""
    && match s
       case Named(word, name) => Prefix(word) && Free(name, ':')
       case Bare(protocol, host) =>
         && ProtocolOk(protocol) && Unreserved(protocol, host) && Unclosed(host + ":" + command)
         && !StartsWithPort(command)
       case Ported(protocol, host, port) =>
         && ProtocolOk(protocol) && Unreserved(protocol, host) && Unclosed(host + ":" + (port + ":" + command))
         && AllDigits(port)
       case V6(protocol, address) => ProtocolOk(protocol) && Free(address, ']') && !StartsWithPort(command)
       case V6Ported(protocol, address, port) => ProtocolOk(protocol) && Free(address, ']') && AllDigits(port)
  }

  lemma FitReads(s: Serial, command: string)
    requires Fits(s, command)
    ensures ParseHostService(Text(s) + ":" + command) == Some((Text(s), command))
  {
    assert Inverts(Text(s), command, Portless(s)) by {
      match s
      case Named(word, name) => NamedInverts(word, name, command);
      case Bare(protocol, host) => BareInverts(protocol, host, command);
      case Ported(protocol, host, port) => PortedInverts(protocol, host, port, command);
      case V6(protocol, address) => V6Inverts(protocol, "[" + address + "]", address, command);
      case V6Ported(protocol, address, port) => V6PortedInverts(protocol, "[" + address + "]", address, port, command);
    }
  }

  // ---------- from the string to the serial ----------

  /** The part from `p` to the colon at `c`. */
  lemma Around(full: string, p: nat, c: nat, host: string, rest: string)
    requires p <= c < |full| && full[c] == ':' && host == full[p..c] && rest == full[c + 1..]
    ensures full[p..] == host + ":" + rest
  {
    assert full[p..] == full[p..c] + [full[c]] + full[c + 1..];
  }

  /** A device word that is not led by any. */
  lemma {:induction false} NoneLeads(full: string, i: nat, k: nat)
    requires i <= k < |DEVICE_WORDS| && DeviceWord(full, i) == 0
    ensures !Leads(DEVICE_WORDS[k], full)
    decreases k - i
  {
    if i < k {
      NoneLeads(full, i + 1, k);
    }
  }

  lemma {:induction false} OneLeads(full: string, i: nat) returns (k: nat)
    requires i <= |DEVICE_WORDS| && DeviceWord(full, i) > 0
    ensures k < |DEVICE_WORDS| && Leads(DEVICE_WORDS[k], full) && DeviceWord(full, i) == |DEVICE_WORDS[k]| + 1
    decreases |DEVICE_WORDS| - i
  {
    if Leads(DEVICE_WORDS[i], full) {
      k := i;
    } else {
      k := OneLeads(full, i + 1);
    }
  }

  lemma LedBy(word: string, full: string)
    requires Leads(word, full)
    ensures full[..|word|] == word && full[|word|] == ':'
  {
    assert full[|word|] == (word + ":")[|word|];
    assert full[..|word|] == (word + ":")[..|word|];
  }

  lemma NamedPart(full: string, r: (string, string)) returns (s: Serial)
    requires full != "" && DeviceWord(full, 0) > 0 && ParseHostService(full) == Some(r)
    ensures Fits(s, r.1) && Text(s) == r.0
  {
    var k := OneLeads(full, 0);
    var word, n := DEVICE_WORDS[k], DeviceWord(full, 0);
    LedBy(word, full);
    PrefixExact(word);
    var c := Colon(full, n).value;
    var name := full[n..c];
    assert Free(name, ':');
    assert full[..c] == full[..n - 1] + [full[n - 1]] + full[n..c];
    s := Named(word, name);
  }

  /** What follows the protocol words is not taken for another one. */
  ghost predicate After(full: string, p: nat, protocol: seq<string>) {
    && p <= |full| && ProtocolOk(protocol) && full[..p] == Words(protocol)
    && (protocol == [] ==> DeviceWord(full[p..], 0) == 0 && !Leads("tcp", full[p..]) && !Leads("udp", full[p..]))
    && (protocol == [] || protocol == ["tcp"] || protocol == ["udp"] ==> !Leads("vsock", full[p..]))
  }

  lemma NetWord(full: string) returns (word: string)
    requires AfterProtocol(full) != 0
    ensures (word == "tcp" || word == "udp") && AfterProtocol(full) == 4 && full[..4] == word + ":" && |full| >= 4
  {
    word := if Leads("tcp", full) then "tcp" else "udp";
    assert word + ":" <= full;
  }

  lemma ProtocolPart(full: string, p: nat) returns (protocol: seq<string>)
    requires DeviceWord(full, 0) == 0 && p == AfterVsock(full, AfterProtocol(full))
    ensures After(full, p, protocol)
  {
    var a := AfterProtocol(full);
    if a == 0 {
      assert full[0..] == full;
      if Leads("vsock", full) {
        protocol := ["vsock"];
        WordsOne("vsock", "");
        assert "vsock:" <= full;
      } else {
        protocol := [];
      }
    } else {
      var word := NetWord(full);
      if Leads("vsock", full[4..]) {
        protocol := [word, "vsock"];
        WordsTwo(word, "vsock", "");
        assert "vsock:" <= full[4..];
        assert full[..10] == full[..4] + full[4..][..6];
      } else {
        protocol := [word];
        WordsOne(word, "");
      }
    }
  }

  lemma HostUnreserved(full: string, p: nat, protocol: seq<string>, host: string, rest: string)
    requires After(full, p, protocol) && Free(host, ':') && full[p..] == host + ":" + rest
    ensures Unreserved(protocol, host)
  {
    WordsFree();
    PrefixExact(host);
    LeadsOnly("tcp", host, rest);
    LeadsOnly("udp", host, rest);
    LeadsOnly("vsock", host, rest);
    if protocol == [] && host in DEVICE_WORDS {
      var k :| 0 <= k < |DEVICE_WORDS| && DEVICE_WORDS[k] == host;
      NoneLeads(full[p..], 0, k);
      LeadsOnly(host, host, rest);
    }
  }

  /** What `AfterAddress` makes of the text behind the address: a port in `port`, or none. */
  lemma PortPart(full: string, q: nat, r: (string, string)) returns (port: Option<string>)
    requires 0 < q <= |full| && full[q - 1] == ':' && AfterAddress(full, q) == Some(r)
    ensures r.1 != ""
    ensures port.None? ==> r == (full[..q - 1], full[q..]) && !StartsWithPort(r.1)
    ensures port.Some? ==> AllDigits(port.value) && r.0 == full[..q] + port.value && full[q..] == port.value + ":" + r.1
  {
    var c := Colon(full, q);
    if c.Some? && AllDigits(full[q..c.value]) {
      port := Some(full[q..c.value]);
      Around(full, q, c.value, full[q..c.value], full[c.value + 1..]);
      assert full[..c.value] == full[..q] + full[q..c.value];
    } else {
      port := None;
      ReadsCommand(full, q, full[q..]);
    }
  }

  /** The address `t` behind the protocol words ends at the colon at `c`. */
  ghost predicate Behind(full: string, protocol: seq<string>, t: string, c: nat) {
    c < |full| && full[c] == ':' && full[..c] == Words(protocol) + t
  }

  lemma PortText(full: string, protocol: seq<string>, t: string, c: nat, q: nat, port: string)
    requires Behind(full, protocol, t, c) && q == c + 1
    ensures full[..q] + port == Words(protocol) + (t + ":" + port)
  {
    assert full[..q] == full[..c] + ":";
    assert full[..c] + ":" + port == Words(protocol) + (t + ":" + port);
  }

  lemma HostEnds(full: string, p: nat, protocol: seq<string>, c: nat, host: string, rest: string)
    requires After(full, p, protocol) && p <= c < |full| && full[c] == ':'
    requires host == full[p..c] && Free(host, ':') && rest == full[c + 1..]
    ensures Behind(full, protocol, host, c) && full[p..] == host + ":" + rest && Unreserved(protocol, host)
  {
    Around(full, p, c, host, rest);
    HostUnreserved(full, p, protocol, host, rest);
    assert full[..c] == full[..p] + host;
  }

  lemma HostFits(full: string, protocol: seq<string>, host: string, c: nat, q: nat, r: (string, string))
    returns (s: Serial)
    requires Behind(full, protocol, host, c) && q == c + 1 && ProtocolOk(protocol) && Unreserved(protocol, host)
    requires Unclosed(host + ":" + full[q..]) && AfterAddress(full, q) == Some(r)
    ensures Fits(s, r.1) && Text(s) == r.0
  {
    var port := PortPart(full, q, r);
    if port.None? {
      s := Bare(protocol, host);
    } else {
      PortText(full, protocol, host, c, q, port.value);
      s := Ported(protocol, host, port.value);
    }
  }

  lemma HostPart(full: string, p: nat, protocol: seq<string>, r: (string, string)) returns (s: Serial)
    requires After(full, p, protocol) && Unclosed(full[p..]) && PlainAddress(full, p) == Some(r)
    ensures Fits(s, r.1) && Text(s) == r.0
  {
    var c := Colon(full, p).value;
    HostEnds(full, p, protocol, c, full[p..c], full[c + 1..]);
    s := HostFits(full, protocol, full[p..c], c, c + 1, r);
  }

  lemma BracketFits(full: string, protocol: seq<string>, address: string, c: nat, q: nat, r: (string, string))
    returns (s: Serial)
    requires Behind(full, protocol, "[" + address + "]", c) && q == c + 1 && ProtocolOk(protocol) && Free(address, ']')
    requires AfterAddress(full, q) == Some(r)
    ensures Fits(s, r.1) && Text(s) == r.0
  {
    var port := PortPart(full, q, r);
    if port.None? {
      s := V6(protocol, address);
    } else {
      PortText(full, protocol, "[" + address + "]", c, q, port.value);
      s := V6Ported(protocol, address, port.value);
    }
  }

  lemma Bracketed(full: string, p: nat, q: nat, t: string)
    requires p < q < |full| && full[p] == '[' && full[q] == ']' && t == "[" + full[p + 1..q] + "]"
    ensures full[..q + 1] == full[..p] + t
  {
    assert t == full[p..q + 1];
  }

  lemma BracketClosed(full: string, p: nat, protocol: seq<string>, q: nat, address: string)
    requires p <= |full| && full[..p] == Words(protocol)
    requires p < |full| && full[p] == '[' && q == FirstOf(full, ']', p) < |full|
    requires q + 1 < |full| && full[q + 1] == ':' && address == full[p + 1..q]
    ensures Free(address, ']') && Behind(full, protocol, "[" + address + "]", q + 1)
  {
    assert address == full[p..q][1..];
    Bracketed(full, p, q, "[" + address + "]");
  }

  lemma BracketPart(full: string, p: nat, protocol: seq<string>, q: nat, r: (string, string)) returns (s: Serial)
    requires After(full, p, protocol) && p < |full| && full[p] == '[' && q == FirstOf(full, ']', p) < |full|
    requires AfterBracket(full, q) == Some(r)
    ensures Fits(s, r.1) && Text(s) == r.0
  {
    BracketClosed(full, p, protocol, q, full[p + 1..q]);
    s := BracketFits(full, protocol, full[p + 1..q], q + 1, q + 2, r);
  }

  lemma AddressPart(full: string, p: nat, protocol: seq<string>, r: (string, string)) returns (s: Serial)
    requires After(full, p, protocol) && Address(full, p) == Some(r)
    ensures Fits(s, r.1) && Text(s) == r.0
  {
    var q := FirstOf(full, ']', p);
    if p < |full| && full[p] == '[' && q < |full| {
      s := BracketPart(full, p, protocol, q, r);
    } else {
      assert Unclosed(full[p..]) by {
        if "[" <= full[p..] {
          assert full[p..][0] == '[';
          assert full[p..q] == full[p..];
        }
      }
      s := HostPart(full, p, protocol, r);
    }
  }

  /** A string that is taken apart begins with a serial that fits in front of its command. */
  lemma Decomposes(full: string, r: (string, string)) returns (s: Serial)
    requires ParseHostService(full) == Some(r)
    ensures Fits(s, r.1) && Text(s) == r.0
  {
    if DeviceWord(full, 0) > 0 {
      s := NamedPart(full, r);
    } else {
      var p := AfterVsock(full, AfterProtocol(full));
      var protocol := ProtocolPart(full, p);
      s := AddressPart(full, p, protocol, r);
    }
  }

  /**
   A service string yields this serial and command if and only if it is the two with a colon between
   them and the serial is one that fits: no other string is accepted, and none is taken apart otherwise.
   */
  lemma ParseExact(full: string, serial: string, command: string)
    ensures ParseHostService(full) == Some((serial, command))
       <==> full == serial + ":" + command && exists s :: Fits(s, command) && Text(s) == serial
  {
    if ParseHostService(full) == Some((serial, command)) {
      ParseSplits(full);
      var s := Decomposes(full, (serial, command));
    }
    if s :| Fits(s, command) && Text(s) == serial {
      FitReads(s, command);
    }
  }
}
