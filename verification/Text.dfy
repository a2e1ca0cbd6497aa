/** The string operations of the source language that the name parsers and the
    suffix list use: strip, split, join, find, lower. */
module Text {

  /** The characters `str.strip` removes: the Unicode white-space set. */
  predicate IsSpace(c: char) {
    var n := c as int;
    || 0x09 <= n <= 0x0D || 0x1C <= n <= 0x20 || n == 0x85 || n == 0xA0 || n == 0x1680
    || 0x2000 <= n <= 0x200A || n == 0x2028 || n == 0x2029 || n == 0x202F || n == 0x205F || n == 0x3000
  }

  /** Which are these. */
  lemma SpacesAre(c: char)
    ensures IsSpace(c) <==> c in "\t\n\r \U{B}\U{C}\U{1C}\U{1D}\U{1E}\U{1F}\U{85}\U{A0}\U{1680}\U{2000}\U{2001}\U{2002}\U{2003}"
                                 + "\U{2004}\U{2005}\U{2006}\U{2007}\U{2008}\U{2009}\U{200A}\U{2028}\U{2029}\U{202F}\U{205F}\U{3000}"
  {}

  predicate IsDigit(c: char) { '0' <= c <= '9' }

  predicate IsAlnum(c: char) { IsDigit(c) || 'a' <= c <= 'z' || 'A' <= c <= 'Z' }

  predicate Digits(s: string) { s != "" && forall i | 0 <= i < |s| :: IsDigit(s[i]) }

  predicate StartsWith(s: string, p: string) { p <= s }

  function LStrip(s: string): string {
    if s != "" && IsSpace(s[0]) then LStrip(s[1..]) else s
  }

  function RStrip(s: string): string {
    if s != "" && IsSpace(s[|s| - 1]) then RStrip(s[..|s| - 1]) else s
  }

  function Strip(s: string): string { RStrip(LStrip(s)) }

  /** True iff `Strip` leaves `s` alone. */
  predicate Trim(s: string) {
    s == "" || (!IsSpace(s[0]) && !IsSpace(s[|s| - 1]))
  }

  lemma {:induction false} RStripPrefix(s: string)
    ensures RStrip(s) <= s
    ensures RStrip(s) == "" || !IsSpace(RStrip(s)[|RStrip(s)| - 1])
  {
    if s != "" && IsSpace(s[|s| - 1]) {
      RStripPrefix(s[..|s| - 1]);
    }
  }

  lemma {:induction false} LStripHead(s: string)
    ensures LStrip(s) == "" || !IsSpace(LStrip(s)[0])
  {
    if s != "" && IsSpace(s[0]) { LStripHead(s[1..]); }
  }

  lemma StripTrims(s: string)
    ensures Trim(Strip(s))
  {
    LStripHead(s);
    RStripPrefix(LStrip(s));
  }

  lemma TrimStrips(s: string)
    requires Trim(s)
    ensures Strip(s) == s
  {}

  // --- stripping, exactly ---------------------------------------------------------

  predicate AllSpace(s: string) { forall i | 0 <= i < |s| :: IsSpace(s[i]) }

  lemma {:induction false} LStripLead(lead: string, rest: string)
    requires AllSpace(lead)
    ensures LStrip(lead + rest) == LStrip(rest)
  {
    if lead == "" {
      assert lead + rest == rest;
    } else {
      assert (lead + rest)[1..] == lead[1..] + rest;
      LStripLead(lead[1..], rest);
    }
  }

  lemma {:induction false} RStripTail(rest: string, tail: string)
    requires AllSpace(tail)
    ensures RStrip(rest + tail) == RStrip(rest)
  {
    if tail == "" {
      assert rest + tail == rest;
    } else {
      assert (rest + tail)[..|rest + tail| - 1] == rest + tail[..|tail| - 1];
      RStripTail(rest, tail[..|tail| - 1]);
    }
  }

  lemma {:induction false} LStripSplit(s: string) returns (lead: string)
    ensures AllSpace(lead) && s == lead + LStrip(s)
  {
    if s != "" && IsSpace(s[0]) {
      lead := LStripSplit(s[1..]);
      lead := [s[0]] + lead;
    } else {
      lead := "";
    }
  }

  lemma {:induction false} RStripSplit(s: string) returns (tail: string)
    ensures AllSpace(tail) && s == RStrip(s) + tail
  {
    if s != "" && IsSpace(s[|s| - 1]) {
      tail := RStripSplit(s[..|s| - 1]);
      tail := tail + [s[|s| - 1]];
    } else {
      tail := "";
    }
  }

  /** Stripping leaves the one text without outer white space that the whole is,
      white space around it apart. */
  lemma StripExactly(s: string, t: string)
    ensures Strip(s) == t
            <==> Trim(t) && exists lead, tail :: AllSpace(lead) && AllSpace(tail) && s == lead + t + tail
  {
    StripTrims(s);
    var lead := LStripSplit(s);
    var tail := RStripSplit(LStrip(s));
    assert s == lead + Strip(s) + tail;
    forall lead, tail | Trim(t) && AllSpace(lead) && AllSpace(tail) && s == lead + t + tail
      ensures Strip(s) == t
    {
      assert s == lead + (t + tail);
      LStripLead(lead, t + tail);
      if t == "" {
        assert t + tail == tail == tail + "";
        LStripLead(tail, "");
      } else {
        RStripTail(t, tail);
        TrimStrips(t);
      }
    }
  }

  /** Position of the first `c`, or -1. */
  function IndexOf(s: string, c: char): (i: int)
    ensures -1 <= i < |s|
    ensures i == -1 ==> c !in s
    ensures i >= 0 ==> s[i] == c && c !in s[..i]
  {
    if s == "" then -1
    else if s[0] == c then 0
    else var r := IndexOf(s[1..], c); if r == -1 then -1 else r + 1
  }

  /** Position of the last `c`, or -1. */
  function LastIndexOf(s: string, c: char): (i: int)
    ensures -1 <= i < |s|
    ensures i == -1 ==> c !in s
    ensures i >= 0 ==> s[i] == c && c !in s[i + 1..]
  {
    if s == "" then -1
    else if s[|s| - 1] == c then |s| - 1
    else
      var front := s[..|s| - 1];
      var r := LastIndexOf(front, c);
      assert s == front + [s[|s| - 1]];
      assert r >= 0 ==> s[r + 1..] == front[r + 1..] + [s[|s| - 1]];
      r
  }

  /** `s.split(sep)` for a one-character separator: never empty. */
  function Split(s: string, sep: char): (parts: seq<string>)
    ensures parts != []
    ensures forall p | p in parts :: sep !in p
    decreases |s|
  {
    var i := IndexOf(s, sep);
    if i < 0 then [s] else [s[..i]] + Split(s[i + 1..], sep)
  }

  /** `sep.join(parts)` */
  function Join(parts: seq<string>, sep: char): string {
    if parts == [] then ""
    else if |parts| == 1 then parts[0]
    else parts[0] + [sep] + Join(parts[1..], sep)
  }

  predicate SepFree(parts: seq<string>, sep: char) {
    forall p | p in parts :: sep !in p
  }

  lemma JoinCons(p: string, rest: seq<string>, sep: char)
    requires rest != []
    ensures Join([p] + rest, sep) == p + [sep] + Join(rest, sep)
  {
    assert ([p] + rest)[1..] == rest;
  }

  lemma JoinOne(part: string, sep: char)
    ensures Join([part], sep) == part
  {}

  lemma SplitWhole(s: string, sep: char)
    requires sep !in s
    ensures IndexOf(s, sep) == -1 && Split(s, sep) == [s]
  {}

  /** One step of `Split`, at the first separator. */
  lemma SplitStep(s: string, sep: char, i: nat)
    requires i == IndexOf(s, sep)
    ensures Split(s, sep) == [s[..i]] + Split(s[i + 1..], sep)
    ensures s == s[..i] + [sep] + s[i + 1..]
  {}

  lemma {:induction false} JoinSplit(s: string, sep: char)
    ensures Join(Split(s, sep), sep) == s
    decreases |s|
  {
    var i := IndexOf(s, sep);
    if i >= 0 {
      SplitStep(s, sep, i);
      JoinSplit(s[i + 1..], sep);
      JoinCons(s[..i], Split(s[i + 1..], sep), sep);
    }
  }

  lemma FirstSep(a: string, sep: char, b: string)
    requires sep !in a
    ensures IndexOf(a + [sep] + b, sep) == |a|
  {
    assert (a + [sep] + b)[|a|] == sep;
  }

  lemma {:induction false} SplitJoin(parts: seq<string>, sep: char)
    requires parts != [] && SepFree(parts, sep)
    ensures Split(Join(parts, sep), sep) == parts
  {
    hide Split, Join, IndexOf;
    assert parts[0] in parts;
    if |parts| == 1 {
      assert parts == [parts[0]];
      JoinOne(parts[0], sep);
      SplitWhole(parts[0], sep);
    } else {
      assert parts == [parts[0]] + parts[1..];
      JoinCons(parts[0], parts[1..], sep);
      var rest := Join(parts[1..], sep);
      var s := parts[0] + [sep] + rest;
      FirstSep(parts[0], sep, rest);
      SplitStep(s, sep, |parts[0]|);
      assert s[..|parts[0]|] == parts[0];
      assert s[|parts[0]| + 1..] == rest;
      SplitJoin(parts[1..], sep);
    }
  }

  /** Split and join are inverse, so joining loses nothing. */
  lemma JoinInjective(a: seq<string>, b: seq<string>, sep: char)
    requires a != [] && b != [] && SepFree(a, sep) && SepFree(b, sep)
    requires Join(a, sep) == Join(b, sep)
    ensures a == b
  {
    SplitJoin(a, sep);
    SplitJoin(b, sep);
  }

  function Count(s: string, c: char): nat {
    if s == "" then 0 else (if s[0] == c then 1 else 0) + Count(s[1..], c)
  }

  lemma {:induction false} CountAppend(a: string, b: string, c: char)
    ensures Count(a + b, c) == Count(a, c) + Count(b, c)
  {
    if a == "" {
      assert a + b == b;
    } else {
      assert (a + b)[1..] == a[1..] + b;
      CountAppend(a[1..], b, c);
    }
  }

  lemma {:induction false} CountAbsent(s: string, c: char)
    ensures Count(s, c) == 0 <==> c !in s
  {
    if s != "" {
      CountAbsent(s[1..], c);
      assert s == [s[0]] + s[1..];
    }
  }

  lemma {:induction false} SplitCount(s: string, sep: char)
    ensures |Split(s, sep)| == Count(s, sep) + 1
    decreases |s|
  {
    hide Split, IndexOf;
    var i := IndexOf(s, sep);
    if i < 0 {
      SplitWhole(s, sep);
      CountAbsent(s, sep);
    } else {
      SplitStep(s, sep, i);
      SplitCount(s[i + 1..], sep);
      CountAbsent(s[..i], sep);
      assert s == s[..i] + ([sep] + s[i + 1..]);
      CountAppend(s[..i], [sep] + s[i + 1..], sep);
      assert ([sep] + s[i + 1..])[1..] == s[i + 1..];
    }
  }

  /** ASCII lower-casing; server names are ASCII. */
  function LowerChar(c: char): char {
    if 'A' <= c <= 'Z' then ((c as int) + 32) as char else c
  }

  function Lower(s: string): (r: string)
    ensures |r| == |s|
    ensures forall i | 0 <= i < |s| :: r[i] == LowerChar(s[i])
  {
    if s == "" then "" else [LowerChar(s[0])] + Lower(s[1..])
  }

  const CAPITALS := "ABCDEFGHIJKLMNOPQRSTUVWXYZ"
  const SMALL := "abcdefghijklmnopqrstuvwxyz"

  /** The same letter, a capital made small. */
  ghost predicate MadeSmall(c: char, d: char) {
    d !in CAPITALS && (c == d || exists j | 0 <= j < 26 :: c == CAPITALS[j] && d == SMALL[j])
  }

  lemma LettersInOrder()
    ensures |CAPITALS| == |SMALL| == 26
    ensures forall j | 0 <= j < 26 :: CAPITALS[j] as int == 65 + j && SMALL[j] as int == 97 + j
  {}

  lemma SmallExactly(c: char, d: char)
    ensures LowerChar(c) == d <==> MadeSmall(c, d)
  {
    LettersInOrder();
    hide CAPITALS, SMALL;
    if 'A' <= c <= 'Z' { assert c == CAPITALS[c as int - 65]; }
    if 'A' <= d <= 'Z' { assert d == CAPITALS[d as int - 65]; }
  }

  /** Lower-casing makes each capital small, character by character, and nothing else. */
  lemma LowerExactly(s: string, t: string)
    ensures Lower(s) == t <==> |s| == |t| && forall i | 0 <= i < |s| :: MadeSmall(s[i], t[i])
  {
    hide MadeSmall, LowerChar, Lower;
    forall c, d ensures LowerChar(c) == d <==> MadeSmall(c, d) { SmallExactly(c, d); }
  }

  /** `s` without one trailing newline: an unanchored-at-newline `$` of the
      source's regex engine accepts `s` exactly when the body accepts this. */
  function Chomp(s: string): string {
    if s != "" && s[|s| - 1] == '\n' then s[..|s| - 1] else s
  }

  function Nat(s: string): nat
    requires Digits(s)
  {
    var d := (s[|s| - 1] as int) - ('0' as int);
    if |s| == 1 then d else 10 * Nat(s[..|s| - 1]) + d
  }

  // --- decimal numbers ------------------------------------------------------------

  function DigitChar(d: nat): char
    requires d < 10
  {
    (('0' as int) + d) as char
  }

  /** A number in decimal, without leading zeros. */
  function Show(n: nat): (s: string)
    ensures Digits(s)
  {
    if n < 10 then [DigitChar(n)] else Show(n / 10) + [DigitChar(n % 10)]
  }

  /** Reading a number back. */
  lemma {:induction false} NatShow(n: nat)
    ensures Nat(Show(n)) == n
  {
    if n >= 10 {
      NatShow(n / 10);
      assert Show(n)[..|Show(n)| - 1] == Show(n / 10);
    }
  }

  lemma {:induction false} ShowStart(n: nat)
    ensures Show(n)[0] == '0' <==> n == 0
    ensures n == 0 ==> Show(n) == "0"
  {
    if n >= 10 { ShowStart(n / 10); }
  }

  lemma FrontDigits(s: string)
    requires Digits(s) && |s| > 1
    ensures Digits(s[..|s| - 1]) && Nat(s) == 10 * Nat(s[..|s| - 1]) + ((s[|s| - 1] as int) - ('0' as int))
  {}

  lemma {:induction false} NoLeadingZero(s: string)
    requires Digits(s) && s[0] != '0'
    ensures Nat(s) >= 1
  {
    if |s| > 1 {
      FrontDigits(s);
      NoLeadingZero(s[..|s| - 1]);
    }
  }

  /** Every run of digits without a leading zero is some number in decimal. */
  lemma {:induction false} ShowNat(s: string)
    requires Digits(s) && (|s| > 1 ==> s[0] != '0')
    ensures Show(Nat(s)) == s
  {
    if |s| > 1 {
      var front := s[..|s| - 1];
      FrontDigits(s);
      NoLeadingZero(front);
      ShowNat(front);
      assert s == front + [s[|s| - 1]];
    }
  }
}
