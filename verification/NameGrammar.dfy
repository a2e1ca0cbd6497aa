/** The names the bot accepts, as a grammar: which texts are server names at all, and
    what each parser takes out of one (`util.py`, `resolver.parse_name`; "Server Name"
    in the appendices of the Matrix specification). */
module NameGrammar {
  import opened Wrappers
  import opened Text
  import opened ServerName

  // --- the grammar --------------------------------------------------------------------

  predicate LetterOrDigit(c: char) { '0' <= c <= '9' || 'a' <= c <= 'z' || 'A' <= c <= 'Z' }

  /** Letters, digits and inner hyphens. */
  predicate Label(s: string) {
    && s != "" && LetterOrDigit(s[0]) && LetterOrDigit(s[|s| - 1])
    && forall i | 0 <= i < |s| :: LetterOrDigit(s[i]) || s[i] == '-'
  }

  /** A label, or one and a newline, which the program lets pass. */
  predicate Part(s: string) { Label(s) || (s != "" && s[|s| - 1] == '\n' && Label(s[..|s| - 1])) }

  /** Parts with dots between them. */
  ghost predicate DnsHost(host: string) {
    exists parts :: parts != [] && (forall p | p in parts :: Part(p)) && host == Join(parts, '.')
  }

  predicate HexColonDot(c: char) { '0' <= c <= '9' || 'a' <= c <= 'f' || 'A' <= c <= 'F' || c == ':' || c == '.' }

  /** An address in brackets, of 2 to 45 characters. */
  predicate AddressHost(ipv6: Ipv6Parser, host: string) {
    && |host| >= 2 && host[0] == '[' && host[|host| - 1] == ']'
    && var inner := host[1..|host| - 1];
       2 <= |inner| <= 45 && (forall i | 0 <= i < |inner| :: HexColonDot(inner[i])) && ipv6(inner)
  }

  /** Nothing, or a colon and a port from 1 to 65535 in one to five digits. */
  predicate PortPart(port: string) {
    || port == ""
    || (port[0] == ':' && 1 <= |port| - 1 <= 5 && Digits(port[1..]) && 1 <= Nat(port[1..]) <= 65535)
  }

  ghost predicate IsName(ipv6: Ipv6Parser, s: string, host: string, port: string) {
    s == host + port && PortPart(port) && (DnsHost(host) || AddressHost(ipv6, host))
  }

  // --- hosts ---------------------------------------------------------------------------

  lemma PartIsBody(s: string)
    ensures Part(s) <==> LabelBody(Chomp(s))
    ensures Part(s) ==> '.' !in s
  {}

  /** The dotted names of the grammar are those the program's label test accepts. */
  lemma DnsHostExactly(host: string)
    ensures DnsHost(host) <==> DnsLabels(host)
  {
    hide Split, Join, Part, LabelBody;
    JoinSplit(host, '.');
    forall p: string ensures Part(p) <==> LabelBody(Chomp(p)) { PartIsBody(p); }
    if DnsLabels(host) {
      assert forall p | p in Split(host, '.') :: Part(p);
    }
    forall parts | parts != [] && (forall p | p in parts :: Part(p)) && host == Join(parts, '.') ensures DnsLabels(host) {
      forall p | p in parts ensures '.' !in p { PartIsBody(p); }
      SplitJoin(parts, '.');
    }
  }

  lemma DnsHostChars(host: string)
    requires DnsHost(host)
    ensures NameChars(host) && host != "" && host[0] != '[' && ':' !in host
  {
    DnsHostExactly(host);
    DnsChars(host);
  }

  lemma PortIsValid(port: string)
    requires port != "" && PortPart(port)
    ensures Chomp(port[1..]) == port[1..] && ValidPort(port[1..]) && ShortDigits(port[1..], 5)
    ensures ':' !in port[1..] && ']' !in port
  {}

  /** A host without colons, with or without a port. */
  lemma PlainSplits(host: string, port: string)
    requires ':' !in host && PortPart(port)
    ensures port == "" ==> ':' !in host + port
    ensures port != "" ==> var s := host + port;
                           && ':' in s && Count(s, ':') == 1
                           && IndexOf(s, ':') == LastIndexOf(s, ':') == |host|
                           && s[..|host|] == host && s[|host| + 1..] == port[1..]
  {
    hide Split, Digits, Nat;
    if port != "" {
      var s := host + port;
      assert s == host + [':'] + port[1..];
      FirstSep(host, ':', port[1..]);
      CountAppend(host, port, ':');
      CountAbsent(host, ':');
      PortIsValid(port);
      CountAbsent(port[1..], ':');
      SingleIndex(s, ':');
    }
  }

  // --- which texts are names ---------------------------------------------------------------

  lemma PlainIsValid(ipv6: Ipv6Parser, host: string, port: string)
    requires DnsHost(host) && PortPart(port) && |host + port| <= 230
    ensures ValidStripped(ipv6, host + port)
  {
    hide IndexOf, LastIndexOf, Count, IsIpv4, DnsLabels, PortPart, ValidPort, ShortDigits;
    DnsHostExactly(host);
    DnsHostChars(host);
    PlainSplits(host, port);
    hide DnsHost;
    if port != "" {
      PortIsValid(port);
    } else {
      assert host + port == host;
    }
  }

  lemma AddressCloses(ipv6: Ipv6Parser, host: string, port: string)
    requires AddressHost(ipv6, host)
    ensures IndexOf(host + port, ']') == |host| - 1
  {
    hide IndexOf;
    var open := host[..|host| - 1];
    assert host + port == open + [']'] + port;
    assert ']' !in open by { assert open == ['['] + host[1..|host| - 1]; }
    FirstSep(open, ']', port);
  }

  lemma AddressIsLiteral(ipv6: Ipv6Parser, host: string)
    requires AddressHost(ipv6, host)
    ensures |host| >= 2 && host[0] == '[' && ValidIpv6Literal(ipv6, host)
  {
    var inner := host[1..|host| - 1];
    assert Chomp(inner) == inner;
  }

  lemma AddressIsValid(ipv6: Ipv6Parser, host: string, port: string)
    requires AddressHost(ipv6, host) && PortPart(port) && |host + port| <= 230
    ensures ValidStripped(ipv6, host + port)
    ensures IndexOf(host + port, ']') == |host| - 1
  {
    hide IndexOf, PortPart, ValidPort, ShortDigits, ValidIpv6Literal, AddressHost, ValidPlain;
    AddressCloses(ipv6, host, port);
    AddressIsLiteral(ipv6, host);
    var s := host + port;
    assert s[..|host|] == host && s[0] == '[';
    if port != "" {
      PortIsValid(port);
      PortReads(port);
      assert s[|host| + 1..] == port[1..];
    }
  }

  lemma PlainHasShape(ipv6: Ipv6Parser, s: string) returns (host: string, port: string)
    requires Trim(s) && ValidStripped(ipv6, s) && s[0] != '['
    ensures s == host + port && PortPart(port) && DnsHost(host)
  {
    hide Split, Count, LastIndexOf, DnsLabels, DnsHost, IsIpv4;
    if ':' in s {
      PortShape(ipv6, s);
      var colon := IndexOf(s, ':');
      host, port := s[..colon], s[colon..];
      assert port[1..] == s[colon + 1..];
      PortAtEnd(s, colon + 1);
    } else {
      BareShape(ipv6, s);
      host, port := s, "";
    }
    DnsHostExactly(host);
  }

  lemma AddressHasShape(ipv6: Ipv6Parser, s: string) returns (host: string, port: string)
    requires SoundIpv6(ipv6) && Trim(s) && ValidStripped(ipv6, s) && s[0] == '['
    ensures s == host + port && PortPart(port) && AddressHost(ipv6, host)
  {
    hide Split, Count, LastIndexOf, IndexOf, IsIpv4, SoundIpv6, Digits, Nat, ShortDigits, AddressHost, PortPart, ValidPort,
      V6Chars, ValidIpv6Literal;
    BracketInner(ipv6, s);
    var close := IndexOf(s, ']');
    host, port := s[..close + 1], s[close + 1..];
    InnerAddress(ipv6, host, s[1..close]);
    if port == "" {
      EmptyPort();
    } else {
      assert port[1..] == s[close + 2..];
      PortAtEnd(s, close + 2);
      ShortPort(port);
    }
  }

  lemma InnerAddress(ipv6: Ipv6Parser, host: string, inner: string)
    requires V6Chars(inner) && ipv6(inner) && host == "[" + inner + "]"
    ensures AddressHost(ipv6, host)
  {
    assert host[1..|host| - 1] == inner;
  }

  lemma EmptyPort()
    ensures PortPart("")
  {}

  lemma ShortPort(port: string)
    requires port != "" && port[0] == ':' && ValidPort(port[1..]) && Chomp(port[1..]) == port[1..]
    ensures PortPart(port)
  {}

  /** A text is accepted exactly when, white space around it apart, it is a host of the
      grammar with or without a port, of at most 230 characters. */
  lemma AcceptedExactly(ipv6: Ipv6Parser, name: string)
    requires SoundIpv6(ipv6)
    ensures ValidateServerName(ipv6, name) <==>
              |Strip(name)| <= 230 && exists host, port :: IsName(ipv6, Strip(name), host, port)
  {
    hide Strip, ValidStripped, DnsHost, AddressHost, PortPart, SoundIpv6;
    var s := Strip(name);
    StripTrims(name);
    if ValidateServerName(ipv6, name) {
      assert s != "" && |s| <= 230 by { NotEmpty(ipv6, s); }
      var host, port;
      if s[0] == '[' {
        host, port := AddressHasShape(ipv6, s);
      } else {
        host, port := PlainHasShape(ipv6, s);
      }
      assert IsName(ipv6, s, host, port);
    }
    forall host, port | |s| <= 230 && IsName(ipv6, s, host, port) ensures ValidStripped(ipv6, s) {
      if DnsHost(host) {
        PlainIsValid(ipv6, host, port);
      } else {
        AddressIsValid(ipv6, host, port);
      }
    }
  }

  lemma NotEmpty(ipv6: Ipv6Parser, s: string)
    requires ValidStripped(ipv6, s)
    ensures s != "" && |s| <= 230
  {}

  // --- and what is read off them --------------------------------------------------------------

  function Unbracketed(host: string): string {
    if |host| >= 2 && host[0] == '[' then host[1..|host| - 1] else host
  }

  /** What the parsers take out of a name: its host, with and without brackets, the port
      it writes, and whether it is an address. */
  lemma ReadExactly(ipv6: Ipv6Parser, name: string, host: string, port: string)
    requires SoundIpv6(ipv6) && |Strip(name)| <= 230 && IsName(ipv6, Strip(name), host, port)
    ensures StripPort(name) == host
    ensures ParseName(ipv6, name)
            == Some(ParsedName(Unbracketed(host),
                               if port == "" then None else Some(Nat(port[1..])),
                               AddressHost(ipv6, host) || IsIpv4(host), host))
  {
    hide Strip, ParseInt, Nat, Digits;
    if DnsHost(host) {
      PlainRead(ipv6, Strip(name), host, port);
    } else {
      AddressRead(ipv6, Strip(name), host, port);
    }
  }

  lemma PlainRead(ipv6: Ipv6Parser, s: string, host: string, port: string)
    requires SoundIpv6(ipv6) && DnsHost(host) && PortPart(port) && s == host + port
    ensures host != "" && host[0] != '[' && !AddressHost(ipv6, host) && s != "" && s[0] != '['
    ensures CutPort(s) == host
    ensures ParsePlain(ipv6, s) == Some(ParsedName(host, if port == "" then None else Some(Nat(port[1..])), IsIpv4(host), host))
  {
    hide ParseInt, Nat, Digits, IsIpv4, Count, IndexOf, LastIndexOf, PortPart;
    DnsHostChars(host);
    PlainSplits(host, port);
    NoIpv6(ipv6, host);
    hide DnsHost, SoundIpv6;
    if port != "" {
      PortReads(port);
    } else {
      assert s == host;
      CountAbsent(s, ':');
    }
  }

  lemma PortReads(port: string)
    requires port != "" && PortPart(port)
    ensures ParseInt(port[1..]) == Some(Nat(port[1..])) && port[0] == ':'
  {
    PlainDigitsParse(port[1..]);
  }

  lemma AddressRead(ipv6: Ipv6Parser, s: string, host: string, port: string)
    requires SoundIpv6(ipv6) && AddressHost(ipv6, host) && PortPart(port) && s == host + port && |s| <= 230
    ensures s != "" && s[0] == '[' && CutPort(s) == host
    ensures ParseBracketed(ipv6, s)
            == Some(ParsedName(host[1..|host| - 1], if port == "" then None else Some(Nat(port[1..])), true, host))
  {
    hide ParseInt, Nat, Digits, IndexOf, PortPart, ValidStripped;
    AddressIsValid(ipv6, host, port);
    assert s[..|host|] == host && s[|host|..] == port && s[1..|host| - 1] == host[1..|host| - 1];
    assert "[" + host[1..|host| - 1] + "]" == host;
    if port != "" { PortReads(port); }
  }

  // --- IPv4 addresses --------------------------------------------------------------------------

  function QuadText(a: nat, b: nat, c: nat, d: nat): string { Show(a) + "." + Show(b) + "." + Show(c) + "." + Show(d) }

  lemma FourParts(a: string, b: string, c: string, d: string)
    ensures Join([a, b, c, d], '.') == a + "." + b + "." + c + "." + d
  {
    hide Join;
    JoinOne(d, '.');
    JoinCons(c, [d], '.');
    JoinCons(b, [c, d], '.');
    JoinCons(a, [b, c, d], '.');
    assert [c] + [d] == [c, d] && [b] + [c, d] == [b, c, d] && [a] + [b, c, d] == [a, b, c, d];
  }

  lemma {:induction false} ShortShow(n: nat)
    ensures |Show(n)| <= 3 <==> n < 1000
    ensures |Show(n)| <= 2 <==> n < 100
    ensures |Show(n)| <= 1 <==> n < 10
  {
    if n >= 10 { ShortShow(n / 10); }
  }

  lemma ByteText(n: nat)
    requires n <= 255
    ensures ShortDigits(Show(n), 3) && !LeadingZero(Show(n)) && Nat(Show(n)) == n && '.' !in Show(n)
  {
    ShortShow(n);
    ShowStart(n);
    NatShow(n);
  }

  /** The dotted quads taken for addresses are the texts of four bytes. */
  lemma Ipv4Exactly(host: string)
    ensures IsIpv4(host) <==> exists a: nat, b: nat, c: nat, d: nat ::
              a <= 255 && b <= 255 && c <= 255 && d <= 255 && host == QuadText(a, b, c, d)
  {
    hide Split, Join, Nat, Show, ShortDigits, LeadingZero;
    var parts := Split(host, '.');
    JoinSplit(host, '.');
    if IsIpv4(host) {
      forall i | 0 <= i < 4 ensures Digits(parts[i]) && Show(Nat(parts[i])) == parts[i] { OctetText(parts[i]); }
      FourParts(parts[0], parts[1], parts[2], parts[3]);
      assert parts == [parts[0], parts[1], parts[2], parts[3]];
      assert host == QuadText(Nat(parts[0]), Nat(parts[1]), Nat(parts[2]), Nat(parts[3]));
    }
    forall a: nat, b: nat, c: nat, d: nat | a <= 255 && b <= 255 && c <= 255 && d <= 255 && host == QuadText(a, b, c, d)
      ensures IsIpv4(host)
    {
      ByteText(a);
      ByteText(b);
      ByteText(c);
      ByteText(d);
      FourParts(Show(a), Show(b), Show(c), Show(d));
      SplitJoin([Show(a), Show(b), Show(c), Show(d)], '.');
      assert parts == [Show(a), Show(b), Show(c), Show(d)];
    }
  }

  lemma OctetText(s: string)
    requires ShortDigits(s, 3) && !LeadingZero(s)
    ensures Digits(s) && Show(Nat(s)) == s
  {
    ShowNat(s);
  }
}
