/** Server names: `util.py` and `resolver.parse_name`.

    The IPv6 text parser of the source's library is a parameter, `ipv6`. All
    that is asked of it is `SoundIpv6`. Every regular expression ends in `$`,
    which also matches just before a final newline; `Chomp` keeps that. */
module ServerName {
  import opened Wrappers
  import opened Text

  type Ipv6Parser = string -> bool

  /** What an accepted IPv6 text has: a colon, and no newline. */
  ghost predicate SoundIpv6(ipv6: Ipv6Parser) {
    forall s | ipv6(s) :: ':' in s && '\n' !in s
  }

  // --- util.strip_port ------------------------------------------------------

  /** `strip_port` on a name that is already stripped of outer white space. */
  function CutPort(s: string): string {
    if s != "" && s[0] == '[' then
      var end := IndexOf(s, ']');
      if end == -1 then s else s[..end + 1]
    else if ':' in s then s[..LastIndexOf(s, ':')]
    else s
  }

  function StripPort(serverName: string): string { CutPort(Strip(serverName)) }

  // --- util.is_ip_literal ---------------------------------------------------

  predicate ShortDigits(s: string, limit: nat) { Digits(s) && |s| <= limit }

  /** A dotted quad of one to three digits each. */
  predicate QuadShape(host: string) {
    var octets := Split(host, '.');
    |octets| == 4 && forall i | 0 <= i < 4 :: ShortDigits(octets[i], 3)
  }

  predicate OctetsInRange(host: string)
    requires QuadShape(host)
  {
    forall i | 0 <= i < 4 :: Nat(Split(host, '.')[i]) <= 255
  }

  predicate IsV6Char(c: char) {
    IsDigit(c) || 'a' <= c <= 'f' || 'A' <= c <= 'F' || c == ':' || c == '.'
  }

  predicate V6Chars(s: string) {
    2 <= |s| <= 45 && forall i | 0 <= i < |s| :: IsV6Char(s[i])
  }

  /** `(?::[0-9]{1,5})?` */
  predicate PortSuffix(s: string) {
    s == "" || (s[0] == ':' && ShortDigits(s[1..], 5))
  }

  function IsIpLiteral(ipv6: Ipv6Parser, host: string): bool { LiteralStripped(ipv6, Strip(host)) }

  predicate LiteralStripped(ipv6: Ipv6Parser, s: string) {
    var colon := IndexOf(s, ':');
    var quad := if colon < 0 then s else s[..colon];
    if QuadShape(quad) && PortSuffix(s[|quad|..]) then
      OctetsInRange(quad)
    else
      && s != "" && s[0] == '['
      && var close := IndexOf(s, ']');
         close >= 0 && V6Chars(s[1..close]) && PortSuffix(s[close + 1..]) && ipv6(s[1..close])
  }

  // --- util.validate_server_name ---------------------------------------------

  predicate ValidPort(port: string) {
    ShortDigits(Chomp(port), 5) && 1 <= Nat(Chomp(port)) <= 65535
  }

  /** `ipaddress.ip_address` giving an IPv4 address: no leading zeros. */
  predicate IsIpv4(host: string) {
    && QuadShape(host)
    && OctetsInRange(host)
    && forall i | 0 <= i < 4 :: !LeadingZero(Split(host, '.')[i])
  }

  predicate LeadingZero(octet: string) { |octet| > 1 && octet[0] == '0' }

  predicate ValidIpv6Literal(ipv6: Ipv6Parser, host: string) {
    && host != "" && host[0] == '[' && host[|host| - 1] == ']' && |host| >= 2
    && var inner := host[1..|host| - 1];
       V6Chars(Chomp(inner)) && ipv6(inner)
  }

  predicate LabelBody(b: string) {
    && b != "" && IsAlnum(b[0]) && IsAlnum(b[|b| - 1])
    && forall i | 0 <= i < |b| :: IsAlnum(b[i]) || b[i] == '-'
  }

  predicate ValidDnsName(host: string) {
    && 1 <= |host| <= 255
    && DnsLabels(host)
  }

  predicate DnsLabels(host: string) {
    forall part | part in Split(host, '.') :: LabelBody(Chomp(part))
  }

  predicate ValidateServerName(ipv6: Ipv6Parser, name: string) {
    ValidStripped(ipv6, Strip(name))
  }

  predicate ValidStripped(ipv6: Ipv6Parser, s: string) {
    s != "" && |s| <= 230 && if s[0] == '[' then ValidBracketed(ipv6, s) else ValidPlain(s)
  }

  predicate ValidBracketed(ipv6: Ipv6Parser, s: string) {
    var close := IndexOf(s, ']');
    && close >= 0
    && (close + 1 == |s| || (s[close + 1] == ':' && ValidPort(s[close + 2..])))
    && ValidIpv6Literal(ipv6, s[..close + 1])
  }

  predicate ValidPlain(s: string) {
    var colon := IndexOf(s, ':');
    if colon >= 0 && Count(s, ':') == 1 then
      ValidPort(s[colon + 1..]) && (IsIpv4(s[..colon]) || ValidDnsName(s[..colon]))
    else
      colon < 0 && (IsIpv4(s) || ValidDnsName(s))
  }

  predicate Bracketed(name: string) { Strip(name) != "" && Strip(name)[0] == '[' }

  // --- resolver.parse_name ----------------------------------------------------

  datatype ParsedName = ParsedName(host: string, port: Option<int>, isIpLiteral: bool, hostWithBrackets: string)

  /** `int(text)`: white space, a sign, digits with single underscores between. */
  function ParseInt(text: string): Option<int> {
    var s := Strip(text);
    if s != "" && s[0] == '-' then
      match ParseDigits(s[1..]) case Some(n) => Some(-n) case None => None
    else if s != "" && s[0] == '+' then ParseDigits(s[1..])
    else ParseDigits(s)
  }

  function ParseDigits(s: string): Option<int> {
    var groups := Split(s, '_');
    if forall g | g in groups :: Digits(g) then
      var all := Flatten(groups);
      if Digits(all) then Some(Nat(all)) else None
    else None
  }

  function Flatten(parts: seq<string>): string {
    if parts == [] then "" else parts[0] + Flatten(parts[1..])
  }

  /** `None` stands for the `ValueError` the source raises. */
  function ParseName(ipv6: Ipv6Parser, name: string): Option<ParsedName> {
    var s := Strip(name);
    if s != "" && s[0] == '[' then ParseBracketed(ipv6, s) else ParsePlain(ipv6, s)
  }

  function ParseBracketed(ipv6: Ipv6Parser, s: string): Option<ParsedName>
    requires s != "" && s[0] == '['
  {
    var close := IndexOf(s, ']');
    if close == -1 then None
    else
      var host := s[1..close];
      var rest := s[close + 1..];
      var port := if rest != "" && rest[0] == ':' then ParseInt(rest[1..]) else None;
      if rest != "" && rest[0] == ':' && port == None then None
      else if !ipv6(host) then None
      else Some(ParsedName(host, port, true, "[" + host + "]"))
  }

  function ParsePlain(ipv6: Ipv6Parser, s: string): Option<ParsedName> {
    var colon := LastIndexOf(s, ':');
    if colon >= 0 && Count(s, ':') == 1 then
      var host := s[..colon];
      match ParseInt(s[colon + 1..])
      case None => None
      case Some(port) => Some(ParsedName(host, Some(port), IsIpv4(host) || ipv6(host), host))
    else
      Some(ParsedName(s, None, IsIpv4(s) || ipv6(s), s))
  }

  // --- the parsers agree --------------------------------------------------------

  /** A dotted quad with an octet such as `01`: `is_ip_literal` reads it as an
      address, the library's parser does not. */
  predicate LeadingZeroQuad(host: string) {
    && QuadShape(host) && OctetsInRange(host)
    && exists i | 0 <= i < 4 :: LeadingZero(Split(host, '.')[i])
  }

  /** A newline just in front of the last colon of a name outside brackets. */
  predicate NewlineBeforePort(name: string) {
    var s := Strip(name);
    var colon := LastIndexOf(s, ':');
    !Bracketed(name) && colon > 0 && s[colon - 1] == '\n'
  }

  /** That is when the host ends in a newline. */
  lemma NewlineHost(name: string)
    ensures NewlineBeforePort(name) <==> StripPort(name) != "" && StripPort(name)[|StripPort(name)| - 1] == '\n'
  {
    hide Strip, IndexOf, LastIndexOf;
    StripTrims(name);
  }

  lemma PlainDigitsParse(s: string)
    requires Digits(s)
    ensures ParseInt(s) == Some(Nat(s))
  {
    assert Trim(s);
    TrimStrips(s);
    assert IndexOf(s, '_') == -1;
    assert Split(s, '_') == [s];
    assert Flatten([s]) == s;
  }

  /** Peels one label off a dotted name. */
  lemma SplitHead(host: string, sep: char, i: nat)
    requires i == IndexOf(host, sep)
    ensures Split(host, sep)[0] == host[..i]
    ensures Split(host, sep)[1..] == Split(host[i + 1..], sep)
    ensures forall p | p in Split(host[i + 1..], sep) :: p in Split(host, sep)
  {
    SplitStep(host, sep, i);
  }

  predicate NameChar(c: char) { IsAlnum(c) || c == '-' || c == '.' || c == '\n' }

  predicate NameChars(s: string) { forall i | 0 <= i < |s| :: NameChar(s[i]) }

  /** Starts with a letter or digit, and ends with one up to a newline. */
  predicate AlnumEnds(s: string) {
    && s != "" && IsAlnum(s[0])
    && Chomp(s) != "" && IsAlnum(Chomp(s)[|Chomp(s)| - 1])
  }

  /** A valid DNS name holds none of the characters the parsers look for. */
  lemma {:induction false} DnsChars(host: string)
    requires DnsLabels(host)
    ensures NameChars(host) && AlnumEnds(host)
    decreases |host|
  {
    hide Split, IndexOf, LabelBody;
    var dot := IndexOf(host, '.');
    if dot < 0 {
      SplitWhole(host, '.');
      assert host in Split(host, '.');
      BodyChars(host);
    } else {
      SplitHead(host, '.', dot);
      assert host[..dot] in Split(host, '.');
      BodyChars(host[..dot]);
      DnsChars(host[dot + 1..]);
      AppendChars(host[..dot], host[dot + 1..]);
      assert host == host[..dot] + "." + host[dot + 1..];
    }
  }

  lemma AppendChars(a: string, b: string)
    requires NameChars(a) && AlnumEnds(a) && NameChars(b) && AlnumEnds(b)
    ensures NameChars(a + "." + b) && AlnumEnds(a + "." + b)
    ensures Chomp(a + "." + b) == a + "." + Chomp(b)
  {}

  lemma BodyChars(part: string)
    requires LabelBody(Chomp(part))
    ensures NameChars(part) && AlnumEnds(part)
  {
    var b := Chomp(part);
    assert forall i | 0 <= i < |b| :: part[i] == b[i];
  }

  lemma {:induction false} ChompLabels(host: string)
    requires DnsLabels(host)
    ensures DnsLabels(Chomp(host))
    decreases |host|
  {
    hide Split, IndexOf, LabelBody;
    var dot := IndexOf(host, '.');
    if dot < 0 {
      SplitWhole(host, '.');
      SplitWhole(Chomp(host), '.');
      assert host in Split(host, '.');
      BodyChomped(host);
    } else {
      var first, rest := host[..dot], host[dot + 1..];
      SplitHead(host, '.', dot);
      DnsChars(rest);
      ChompLabels(rest);
      assert Chomp(host) == first + "." + Chomp(rest);
      FirstSep(first, '.', Chomp(rest));
      SplitStep(Chomp(host), '.', dot);
      assert Chomp(host)[..dot] == first && Chomp(host)[dot + 1..] == Chomp(rest);
      assert first in Split(host, '.');
    }
  }

  lemma BodyChomped(part: string)
    requires LabelBody(Chomp(part))
    ensures LabelBody(Chomp(Chomp(part)))
  {}

  lemma Ipv4IsDns(host: string)
    requires IsIpv4(host)
    ensures DnsLabels(host)
  {
    forall part | part in Split(host, '.') ensures LabelBody(Chomp(part)) {
      assert Digits(part);
    }
  }

  lemma {:induction false} SingleIndex(s: string, c: char)
    requires Count(s, c) == 1
    ensures IndexOf(s, c) == LastIndexOf(s, c) >= 0
  {
    CountAbsent(s, c);
    var i := IndexOf(s, c);
    assert s == s[..i] + ([c] + s[i + 1..]);
    CountAppend(s[..i], [c] + s[i + 1..], c);
    CountAbsent(s[..i], c);
    assert ([c] + s[i + 1..])[1..] == s[i + 1..];
    CountAbsent(s[i + 1..], c);
    assert c !in s[..i] && c !in s[i + 1..];
    assert s == s[..i + 1] + s[i + 1..];
  }

  /** A valid name that is not bracketed: a DNS host and perhaps a port. */
  lemma BareShape(ipv6: Ipv6Parser, s: string)
    requires ValidStripped(ipv6, s) && s[0] != '[' && ':' !in s
    ensures DnsLabels(s)
  {
    hide Split, LStrip, RStrip, LastIndexOf, DnsLabels, IsIpv4;
    if IsIpv4(s) { Ipv4IsDns(s); }
  }

  lemma PortShape(ipv6: Ipv6Parser, s: string)
    requires Trim(s) && ValidStripped(ipv6, s) && s[0] != '[' && ':' in s
    ensures Count(s, ':') == 1
    ensures var colon := IndexOf(s, ':');
            && colon == LastIndexOf(s, ':') >= 0
            && ShortDigits(s[colon + 1..], 5)
            && DnsLabels(s[..colon])
  {
    hide Split, LStrip, RStrip, Count, IndexOf, LastIndexOf;
    var colon := IndexOf(s, ':');
    SingleIndex(s, ':');
    PortAtEnd(s, colon + 1);
    if IsIpv4(s[..colon]) { Ipv4IsDns(s[..colon]); }
  }

  /** The literal test on a DNS host, with or without a port. */
  lemma PlainLiteral(ipv6: Ipv6Parser, s: string)
    requires var h := CutPort(s); NameChars(h) && h != "" && h[0] != '['
    requires s != "" && s[0] != '['
    requires ':' in s ==> IndexOf(s, ':') == LastIndexOf(s, ':') && ShortDigits(s[IndexOf(s, ':') + 1..], 5)
    ensures LiteralStripped(ipv6, s) <==> (QuadShape(CutPort(s)) && OctetsInRange(CutPort(s)))
  {
    hide Split, IndexOf, LastIndexOf, Nat;
    if ':' in s {
      var colon := IndexOf(s, ':');
      assert s[colon..][1..] == s[colon + 1..];
    } else {
      assert s[|s|..] == "";
    }
  }

  lemma NoIpv6(ipv6: Ipv6Parser, host: string)
    requires SoundIpv6(ipv6) && NameChars(host)
    ensures !ipv6(host)
  {
    assert ':' !in host;
  }

  /** `parse_name` on a DNS host, with or without a port. */
  lemma PlainParse(ipv6: Ipv6Parser, s: string)
    requires SoundIpv6(ipv6) && s != "" && s[0] != '['
    requires NameChars(CutPort(s))
    requires ':' in s ==> Count(s, ':') == 1 && ShortDigits(s[LastIndexOf(s, ':') + 1..], 5)
    ensures ParsePlain(ipv6, s).Some?
    ensures ParsePlain(ipv6, s).value.hostWithBrackets == CutPort(s)
    ensures ParsePlain(ipv6, s).value.isIpLiteral == IsIpv4(CutPort(s))
  {
    hide Split, IndexOf, LastIndexOf, Nat, ParseInt, Count, IsIpv4, SoundIpv6, NameChars, Digits;
    CountAbsent(s, ':');
    NoIpv6(ipv6, CutPort(s));
    if ':' in s { PlainDigitsParse(s[LastIndexOf(s, ':') + 1..]); }
  }

  /** On an unbracketed valid name both literal tests look at the same host. */
  lemma PlainNamesAgree(ipv6: Ipv6Parser, name: string)
    requires SoundIpv6(ipv6) && ValidateServerName(ipv6, name) && !Bracketed(name)
    ensures var h := StripPort(name);
            DnsLabels(h)
            && ParseName(ipv6, name).Some?
            && ParseName(ipv6, name).value.hostWithBrackets == h
            && (IsIpLiteral(ipv6, name) <==> (QuadShape(h) && OctetsInRange(h)))
            && ParseName(ipv6, name).value.isIpLiteral == IsIpv4(h)
  {
    hide Split, IndexOf, LastIndexOf, LStrip, RStrip, Count, Nat, DnsLabels, ValidPlain,
      ParsePlain, LiteralStripped, QuadShape, OctetsInRange, IsIpv4, ShortDigits;
    var s := Strip(name);
    StripTrims(name);
    if ':' in s { PortShape(ipv6, s); } else { BareShape(ipv6, s); }
    DnsChars(CutPort(s));
    PlainLiteral(ipv6, s);
    PlainParse(ipv6, s);
  }

  /** A port at the end of a stripped name has no newline to ignore. */
  lemma PortAtEnd(s: string, i: nat)
    requires Trim(s) && i <= |s| && ValidPort(s[i..])
    ensures Chomp(s[i..]) == s[i..] && ShortDigits(s[i..], 5) && ParseInt(s[i..]).Some?
  {
    hide Split, LStrip, RStrip, ParseInt;
    var port := s[i..];
    if port != "" { assert port[|port| - 1] == s[|s| - 1]; }
    PlainDigitsParse(port);
  }

  /** A valid name that is bracketed: an address ... */
  lemma BracketInner(ipv6: Ipv6Parser, s: string)
    requires SoundIpv6(ipv6) && s != "" && s[0] == '[' && ValidBracketed(ipv6, s)
    ensures var close := IndexOf(s, ']'); close > 0 && V6Chars(s[1..close]) && ipv6(s[1..close])
  {
    hide IndexOf, V6Chars, ValidPort;
    var close := IndexOf(s, ']');
    var h := s[..close + 1];
    assert h[1..|h| - 1] == s[1..close];
    assert Chomp(s[1..close]) == s[1..close];
  }

  /** ... and perhaps a port. */
  lemma BracketShape(ipv6: Ipv6Parser, s: string)
    requires SoundIpv6(ipv6) && Trim(s) && s != "" && s[0] == '[' && ValidBracketed(ipv6, s)
    ensures var close := IndexOf(s, ']');
            && close > 0
            && PortSuffix(s[close + 1..])
            && (close + 1 < |s| ==> s[close + 1] == ':' && ParseInt(s[close + 2..]).Some?)
  {
    hide IndexOf, V6Chars, ValidPort, ParseInt, ShortDigits, ValidIpv6Literal;
    BracketInner(ipv6, s);
    var close := IndexOf(s, ']');
    if close + 1 < |s| {
      PortAtEnd(s, close + 2);
      assert s[close + 1..][1..] == s[close + 2..];
    }
  }

  /** The bracketed part on its own. */
  lemma BracketHost(ipv6: Ipv6Parser, s: string)
    requires SoundIpv6(ipv6) && Trim(s) && ValidStripped(ipv6, s) && s[0] == '['
    ensures var h := CutPort(s);
            && h != "" && h[0] == '[' && Trim(h) && Strip(h) == h && IndexOf(h, ']') == |h| - 1
            && h == s[..IndexOf(s, ']') + 1]
            && CutPort(h) == h && ValidStripped(ipv6, h)
  {
    hide Split, LastIndexOf, LStrip, RStrip, Count, Nat, ValidPlain, ValidPort, ValidIpv6Literal;
    var close := IndexOf(s, ']');
    var h := s[..close + 1];
    assert h[close] == ']';
    assert h[..close] == s[..close];
    TrimStrips(h);
    assert h[..close + 1] == h;
  }

  lemma BracketLiteral(ipv6: Ipv6Parser, name: string)
    requires SoundIpv6(ipv6) && ValidateServerName(ipv6, name) && Bracketed(name)
    ensures IsIpLiteral(ipv6, name)
  {
    hide Split, LastIndexOf, LStrip, RStrip, Count, Nat, IndexOf, ValidBracketed, ValidPlain, V6Chars, ShortDigits;
    var s := Strip(name);
    StripTrims(name);
    BracketInner(ipv6, s);
    BracketShape(ipv6, s);
    NotAQuad(s);
    var colon := IndexOf(s, ':');
    assert s == s[..|s|];
  }

  lemma BracketParse(ipv6: Ipv6Parser, name: string)
    requires SoundIpv6(ipv6) && ValidateServerName(ipv6, name) && Bracketed(name)
    ensures ParseName(ipv6, name).Some?
    ensures ParseName(ipv6, name).value.hostWithBrackets == CutPort(Strip(name))
    ensures ParseName(ipv6, name).value.isIpLiteral
  {
    hide Split, LastIndexOf, LStrip, RStrip, Count, Nat, IndexOf, ValidBracketed, ValidPlain, ParseInt, ParsePlain, V6Chars, ValidPort;
    var s := Strip(name);
    StripTrims(name);
    BracketInner(ipv6, s);
    BracketShape(ipv6, s);
    var close := IndexOf(s, ']');
    assert "[" + s[1..close] + "]" == s[..close + 1];
    if close + 1 < |s| { assert s[close + 1..][1..] == s[close + 2..]; }
  }

  /** On a bracketed valid name all three parsers cut at the same bracket. */
  lemma BracketedNamesAgree(ipv6: Ipv6Parser, name: string)
    requires SoundIpv6(ipv6) && ValidateServerName(ipv6, name) && Bracketed(name)
    ensures ParseName(ipv6, name).Some?
    ensures ParseName(ipv6, name).value.hostWithBrackets == StripPort(name)
    ensures ParseName(ipv6, name).value.isIpLiteral && IsIpLiteral(ipv6, name)
    ensures var h := StripPort(name);
            && ValidateServerName(ipv6, h) && StripPort(h) == h && IsIpLiteral(ipv6, h)
            && !QuadShape(h) && h != "" && h[|h| - 1] == ']'
  {
    hide Split, IndexOf, LastIndexOf, LStrip, RStrip, Count, Nat, ParseBracketed, ParsePlain, LiteralStripped, ValidBracketed, ValidPlain, QuadShape;
    var s := Strip(name);
    StripTrims(name);
    BracketHost(ipv6, s);
    BracketLiteral(ipv6, name);
    BracketParse(ipv6, name);
    var h := CutPort(s);
    BracketLiteral(ipv6, h);
    NotAQuad(h);
    assert h == h[..|h|];
  }

  /** Nothing in front of the first colon of a bracketed name is a quad. */
  lemma NotAQuad(s: string)
    requires s != "" && s[0] == '['
    ensures forall i | 0 < i <= |s| :: !QuadShape(s[..i])
  {
    forall i | 0 < i <= |s| ensures !QuadShape(s[..i]) {
      var q := s[..i];
      var dot := IndexOf(q, '.');
      if dot > 0 {
        SplitStep(q, '.', dot);
        assert Split(q, '.')[0][0] == '[';
      }
    }
  }

  /** What stripping the white space off a bare host changes: one newline. */
  lemma StripHost(h: string)
    requires AlnumEnds(h)
    ensures Strip(h) == Chomp(h)
  {
    assert LStrip(h) == h;
    var b := Chomp(h);
    assert RStrip(b) == b;
  }

  lemma BareCut(h: string)
    requires NameChars(h) && AlnumEnds(h)
    ensures StripPort(h) == Chomp(h) && (StripPort(h) == h <==> h[|h| - 1] != '\n')
  {
    StripHost(h);
  }

  /** A DNS host stays a valid name once its newline, if any, is stripped. */
  lemma HostStaysValid(ipv6: Ipv6Parser, h: string)
    requires DnsLabels(h) && |h| <= 230
    ensures ValidateServerName(ipv6, h)
  {
    hide Split, LStrip, RStrip, LastIndexOf, IsIpv4, DnsLabels, IndexOf, ValidBracketed, Count;
    DnsChars(h);
    StripHost(h);
    ChompLabels(h);
    DnsChars(Chomp(h));
  }

  lemma StripShortens(s: string)
    ensures |Strip(s)| <= |s| && |CutPort(s)| <= |s|
  {
    RStripPrefix(LStrip(s));
    LStripShortens(s);
  }

  lemma {:induction false} LStripShortens(s: string)
    ensures |LStrip(s)| <= |s|
  {
    if s != "" && IsSpace(s[0]) { LStripShortens(s[1..]); }
  }

  /** `validate_server_name` and `parse_name` agree on the host of every valid
      name, and stripping the port keeps a name valid. */
  lemma ParsersAgree(ipv6: Ipv6Parser, name: string)
    requires SoundIpv6(ipv6) && ValidateServerName(ipv6, name)
    ensures ParseName(ipv6, name).Some?
    ensures StripPort(name) == ParseName(ipv6, name).value.hostWithBrackets
    ensures ValidateServerName(ipv6, StripPort(name))
  {
    hide ParseName, IsIpLiteral, Strip, CutPort, DnsLabels, ValidBracketed, ValidPlain;
    if Bracketed(name) {
      BracketedNamesAgree(ipv6, name);
    } else {
      PlainNamesAgree(ipv6, name);
      StripShortens(Strip(name));
      HostStaysValid(ipv6, StripPort(name));
    }
  }

  /** The two literal tests agree on a valid name exactly when it is not a
      dotted quad with a leading-zero octet. */
  lemma LiteralTestsAgree(ipv6: Ipv6Parser, name: string)
    requires SoundIpv6(ipv6) && ValidateServerName(ipv6, name)
    ensures ParseName(ipv6, name).Some?
    ensures IsIpLiteral(ipv6, name) == ParseName(ipv6, name).value.isIpLiteral
            <==> !LeadingZeroQuad(StripPort(name))
  {
    hide StripPort, ParseName, IsIpLiteral, ValidateServerName, QuadShape, OctetsInRange, DnsLabels, Split;
    if Bracketed(name) {
      BracketedNamesAgree(ipv6, name);
    } else {
      PlainNamesAgree(ipv6, name);
    }
  }

  /** Stripping the port twice is stripping it once, exactly when the host does
      not end in a newline. */
  lemma StripPortIdempotent(ipv6: Ipv6Parser, name: string)
    requires SoundIpv6(ipv6) && ValidateServerName(ipv6, name)
    ensures StripPort(StripPort(name)) == StripPort(name) <==> !NewlineBeforePort(name)
  {
    hide StripPort, ParseName, IsIpLiteral, ValidateServerName, QuadShape, OctetsInRange, IsIpv4, DnsLabels, NewlineBeforePort;
    if Bracketed(name) {
      BracketedNamesAgree(ipv6, name);
    } else {
      PlainNamesAgree(ipv6, name);
      DnsChars(StripPort(name));
      BareCut(StripPort(name));
    }
    NewlineHost(name);
  }

  /** Being an IP literal survives stripping the port, exactly when the host is
      not a dotted quad followed by a newline. */
  lemma LiteralSurvivesStripping(ipv6: Ipv6Parser, name: string)
    requires SoundIpv6(ipv6) && ValidateServerName(ipv6, name)
    ensures IsIpLiteral(ipv6, StripPort(name)) == IsIpLiteral(ipv6, name)
            <==> !(NewlineBeforePort(name) && QuadShape(Chomp(StripPort(name)))
                   && OctetsInRange(Chomp(StripPort(name))))
  {
    hide StripPort, ParseName, IsIpLiteral, ValidateServerName, QuadShape, OctetsInRange, IsIpv4, DnsLabels, NewlineBeforePort;
    if Bracketed(name) {
      BracketedNamesAgree(ipv6, name);
    } else {
      PlainNamesAgree(ipv6, name);
      var h := StripPort(name);
      DnsChars(h);
      BareHostLiteral(ipv6, h);
      if h[|h| - 1] == '\n' { QuadHasNoNewline(h); }
    }
    NewlineHost(name);
  }

  lemma BareHostLiteral(ipv6: Ipv6Parser, h: string)
    requires NameChars(h) && AlnumEnds(h)
    ensures IsIpLiteral(ipv6, h) <==> (QuadShape(Chomp(h)) && OctetsInRange(Chomp(h)))
  {
    hide Split, LastIndexOf, LStrip, RStrip, Count, Nat, IndexOf;
    StripHost(h);
    var b := Chomp(h);
    assert IndexOf(b, ':') == -1;
    assert b[|b|..] == "";
  }

  lemma QuadHasNoNewline(h: string)
    requires h != "" && h[|h| - 1] == '\n'
    ensures !QuadShape(h)
  {
    LastPart(h, '.');
  }

  /** The last part of a split ends where the whole does. */
  lemma {:induction false} LastPart(s: string, sep: char)
    requires s != "" && s[|s| - 1] != sep
    ensures var parts := Split(s, sep);
            var last := parts[|parts| - 1];
            last != "" && last[|last| - 1] == s[|s| - 1]
    decreases |s|
  {
    hide Split, IndexOf;
    var i := IndexOf(s, sep);
    if i >= 0 {
      SplitStep(s, sep, i);
      LastPart(s[i + 1..], sep);
    } else {
      SplitWhole(s, sep);
    }
  }

  lemma QuadSplit(first: string, last: string)
    requires '.' !in first && '.' !in last
    ensures Split(first + ".2.3." + last, '.') == [first, "2", "3", last]
  {
    hide Split, Join;
    var parts := [first, "2", "3", last];
    JoinCons("3", [last], '.');
    JoinCons("2", ["3", last], '.');
    JoinCons(first, ["2", "3", last], '.');
    assert ["3"] + [last] == ["3", last] && ["2"] + ["3", last] == ["2", "3", last] && [first] + ["2", "3", last] == parts;
    JoinOne(last, '.');
    assert first + ['.'] + ("2" + ['.'] + ("3" + ['.'] + last)) == first + ".2.3." + last;
    SplitJoin(parts, '.');
  }

  /** The leading-zero family is not empty: `01.2.3.4` is a valid name, so the
      two literal tests differ on it. */
  lemma LeadingZeroWitness(ipv6: Ipv6Parser)
    requires SoundIpv6(ipv6)
    ensures ValidateServerName(ipv6, "01.2.3.4") && LeadingZeroQuad(StripPort("01.2.3.4"))
  {
    hide Split, IndexOf, LastIndexOf, Strip, Count, Nat, LeadingZeroQuad, LabelBody, CutPort, ValidateServerName;
    var name := "01.2.3.4";
    assert "01" + ".2.3." + "4" == name;
    QuadSplit("01", "4");
    WitnessLabels(["01", "2", "3", "4"]);
    HostStaysValid(ipv6, name);
    PortlessStays(name);
    WitnessQuad(name);
  }

  lemma PortlessStays(name: string)
    requires Trim(name) && name != "" && name[0] != '[' && ':' !in name
    ensures StripPort(name) == name
  {
    TrimStrips(name);
  }

  lemma WitnessLabels(parts: seq<string>)
    requires parts == ["01", "2", "3", "4"]
    ensures forall part | part in parts :: LabelBody(Chomp(part))
  {
    assert forall part | part in parts :: Chomp(part) == part;
  }

  lemma WitnessQuad(name: string)
    requires Split(name, '.') == ["01", "2", "3", "4"]
    ensures LeadingZeroQuad(name)
  {
    assert LeadingZero(Split(name, '.')[0]);
    assert Nat("01") == 1 && Nat("2") == 2 && Nat("3") == 3 && Nat("4") == 4;
  }

  /** The newline family is not empty: `1\n:8` is a valid name whose host ends
      in a newline, so stripping its port twice is not stripping it once. */
  lemma NewlineWitness(ipv6: Ipv6Parser)
    requires SoundIpv6(ipv6)
    ensures ValidateServerName(ipv6, "1\n:8") && NewlineBeforePort("1\n:8")
  {
    hide Split, Strip, Count, IndexOf, LastIndexOf, ValidDnsName;
    assert "1\n" + ":8" == "1\n:8";
    PortWitness(ipv6, "1\n");
    WitnessLabel("1\n");
  }

  /** And neither is the family of quads in it: `1.2.3.4\n:8` is valid and no IP
      literal, and its host is one. */
  lemma NewlineQuadWitness(ipv6: Ipv6Parser)
    requires SoundIpv6(ipv6)
    ensures var name := "1.2.3.4\n:8";
            && ValidateServerName(ipv6, name) && NewlineBeforePort(name)
            && IsIpLiteral(ipv6, StripPort(name)) && !IsIpLiteral(ipv6, name)
  {
    hide Split, Strip, Count, IndexOf, LastIndexOf, DnsLabels, IsIpLiteral, StripPort, ValidateServerName, NewlineBeforePort,
      QuadShape, OctetsInRange;
    var host := "1.2.3.4\n";
    assert host + ":8" == "1.2.3.4\n:8";
    QuadLabels(host);
    PortWitness(ipv6, host);
    QuadParts();
    assert Chomp(host) == "1.2.3.4";
    DnsChars(host);
    BareHostLiteral(ipv6, host);
    LiteralSurvivesStripping(ipv6, host + ":8");
  }

  /** A host that ends in a newline, with a port. */
  lemma PortWitness(ipv6: Ipv6Parser, host: string)
    requires |host| > 1 && |host| < 200 && ':' !in host && !IsSpace(host[0]) && host[0] != '[' && host[|host| - 1] == '\n'
    ensures ValidDnsName(host) ==> ValidateServerName(ipv6, host + ":8")
    ensures NewlineBeforePort(host + ":8") && StripPort(host + ":8") == host
  {
    hide Split, Strip, Count, IndexOf, LastIndexOf, ValidDnsName;
    var name := host + ":8";
    TrimStrips(name);
    WitnessColon(host);
    assert name[|host| + 1..] == "8" && Chomp("8") == "8" && Nat("8") == 8;
    assert name[..|host|] == host;
  }

  lemma WitnessColon(host: string)
    requires ':' !in host
    ensures var name := host + ":8";
            IndexOf(name, ':') == |host| && LastIndexOf(name, ':') == |host| && Count(name, ':') == 1
  {
    var name := host + ":8";
    assert name == host + [':'] + "8";
    FirstSep(host, ':', "8");
    CountAppend(host, ":8", ':');
    CountAbsent(host, ':');
    assert ":8"[1..] == "8";
    CountAbsent("8", ':');
    SingleIndex(name, ':');
  }

  lemma WitnessLabel(host: string)
    requires host == "1\n"
    ensures ValidDnsName(host)
  {
    assert IndexOf(host, '.') == -1;
    assert Split(host, '.') == [host];
    assert Chomp(host) == "1";
  }

  lemma QuadLabels(host: string)
    requires host == "1.2.3.4\n"
    ensures ValidDnsName(host)
  {
    hide Split;
    QuadSplit("1", "4\n");
    assert host == "1" + ".2.3." + "4\n";
    assert Chomp("1") == "1" && Chomp("2") == "2" && Chomp("3") == "3" && Chomp("4\n") == "4";
    assert DnsLabels(host);
  }

  lemma QuadParts()
    ensures QuadShape("1.2.3.4") && OctetsInRange("1.2.3.4")
  {
    hide Split;
    QuadSplit("1", "4");
    assert "1" + ".2.3." + "4" == "1.2.3.4";
    assert Nat("1") == 1 && Nat("2") == 2 && Nat("3") == 3 && Nat("4") == 4;
  }
}
