/** How a suffix list's text and a host's text are read: which rules the lines of a
    list publish, what the last label of a rule is, and what a host looks like before
    it is looked up (`psl.py`, `_load` and `etld1`). */
module SuffixText {
  import opened Text
  import opened PublicSuffix

  // --- lines ------------------------------------------------------------------------

  predicate SpaceFree(s: string) { forall i | 0 <= i < |s| :: !IsSpace(s[i]) }

  /** The first word of a line, white space in front of it apart, when that is not a
      comment. */
  ghost predicate Publishes(line: string, word: string) {
    && word != "" && SpaceFree(word) && !StartsWith(word, "//")
    && exists lead, rest :: AllSpace(lead) && (rest == "" || IsSpace(rest[0])) && line == lead + word + rest
  }

  lemma {:induction false} FirstWordIs(word: string, rest: string)
    requires SpaceFree(word) && (rest == "" || IsSpace(rest[0]))
    ensures FirstWord(word + rest) == word
  {
    if word == "" {
      assert word + rest == rest;
    } else {
      assert (word + rest)[1..] == word[1..] + rest;
      FirstWordIs(word[1..], rest);
    }
  }

  lemma {:induction false} FirstWordSplits(s: string) returns (rest: string)
    ensures SpaceFree(FirstWord(s)) && s == FirstWord(s) + rest && (rest == "" || IsSpace(rest[0]))
  {
    if s == "" || IsSpace(s[0]) {
      rest := s;
    } else {
      rest := FirstWordSplits(s[1..]);
    }
  }

  lemma {:induction false} RStripKeeps(word: string, rest: string)
    requires word != "" && !IsSpace(word[|word| - 1])
    ensures RStrip(word + rest) == word + RStrip(rest)
  {
    if rest == "" {
      assert word + rest == word;
    } else if IsSpace(rest[|rest| - 1]) {
      assert (word + rest)[..|word + rest| - 1] == word + rest[..|rest| - 1];
      RStripKeeps(word, rest[..|rest| - 1]);
    }
  }

  lemma TakenIsPublished(line: string, word: string)
    requires IsRuleLine(line) && FirstWord(Strip(line)) == word
    ensures Publishes(line, word)
  {
    hide FirstWord, LStrip, RStrip;
    var s := Strip(line);
    StripTrims(line);
    var lead := LStripSplit(line);
    var tail := RStripSplit(LStrip(line));
    var rest := FirstWordSplits(s);
    if word == "" { FirstOfTrimmed(s, rest); }
    var after := rest + tail;
    assert after == "" || IsSpace(after[0]) by { if rest != "" { assert after[0] == rest[0]; } }
    assert line == lead + word + after;
    assert StartsWith(word, "//") ==> StartsWith(s, "//");
  }

  lemma PublishedIsTaken(line: string, word: string)
    requires Publishes(line, word)
    ensures IsRuleLine(line) && FirstWord(Strip(line)) == word
  {
    hide FirstWord, LStrip, RStrip;
    var lead, rest :| AllSpace(lead) && (rest == "" || IsSpace(rest[0])) && line == lead + word + rest;
    assert line == lead + (word + rest);
    LStripLead(lead, word + rest);
    LStripNone(word + rest);
    RStripKeeps(word, rest);
    RStripPrefix(rest);
    FirstWordIs(word, RStrip(rest));
    SlashesAreAWord(word, RStrip(rest));
  }

  /** The one word a line publishes is what the program takes from it. */
  lemma PublishedWord(line: string, word: string)
    ensures Publishes(line, word) <==> IsRuleLine(line) && FirstWord(Strip(line)) == word
  {
    hide FirstWord, Strip, Publishes, IsRuleLine;
    if Publishes(line, word) { PublishedIsTaken(line, word); }
    if IsRuleLine(line) && FirstWord(Strip(line)) == word { TakenIsPublished(line, word); }
  }

  lemma LStripNone(s: string)
    requires s != "" && !IsSpace(s[0])
    ensures LStrip(s) == s
  {}

  lemma FirstOfTrimmed(s: string, rest: string)
    requires Trim(s) && s == rest && (rest == "" || IsSpace(rest[0]))
    ensures s == ""
  {}

  lemma SlashesAreAWord(word: string, rest: string)
    requires word != "" && SpaceFree(word) && (rest == "" || IsSpace(rest[0])) && !StartsWith(word, "//")
    ensures !StartsWith(word + rest, "//") && word + rest != ""
  {
    if |word| == 1 && rest != "" { assert (word + rest)[1] == rest[0]; }
    if |word| >= 2 { assert (word + rest)[..2] == word[..2]; }
  }

  // --- rules ---------------------------------------------------------------------------

  lemma {:induction false} LowerAppend(a: string, b: string)
    ensures Lower(a + b) == Lower(a) + Lower(b)
  {
    if a == "" {
      assert a + b == b;
    } else {
      assert (a + b)[1..] == a[1..] + b;
      LowerAppend(a[1..], b);
    }
  }

  function EncodedParts(idna: string -> string, parts: seq<string>): seq<string> {
    seq(|parts|, i requires 0 <= i < |parts| => EncodeLabel(idna, parts[i]))
  }

  lemma {:induction false} EncodeAscii(idna: string -> string, parts: seq<string>)
    requires forall p | p in parts :: Ascii(p)
    ensures Join(EncodedParts(idna, parts), '.') == Lower(Join(parts, '.'))
  {
    hide Lower, Ascii;
    var out := EncodedParts(idna, parts);
    if |parts| > 1 {
      assert out[1..] == EncodedParts(idna, parts[1..]);
      EncodeAscii(idna, parts[1..]);
      assert parts[0] in parts;
      LowerAppend(parts[0] + ".", Join(parts[1..], '.'));
      LowerAppend(parts[0], ".");
      LowerDot();
    } else if |parts| == 1 {
      assert parts[0] in parts;
    } else {
      LowerNothing();
    }
  }

  lemma LowerDot()
    ensures Lower(".") == "."
  {}

  lemma LowerNothing()
    ensures Lower("") == ""
  {}

  lemma {:induction false} PartsAreAscii(s: string, sep: char)
    requires Ascii(s)
    ensures forall p | p in Split(s, sep) :: Ascii(p)
    decreases |s|
  {
    var i := IndexOf(s, sep);
    if i >= 0 { PartsAreAscii(s[i + 1..], sep); }
  }

  /** An ASCII rule is kept as it is written, in lower case. */
  lemma AsciiRule(idna: string -> string, rule: string)
    requires Ascii(rule)
    ensures EncodeRule(idna, rule) == Lower(rule)
  {
    hide Split, Join, Lower, Ascii;
    PartsAreAscii(rule, '.');
    JoinSplit(rule, '.');
    EncodeAscii(idna, Split(rule, '.'));
  }

  lemma LineGivesRule(idna: string -> string, lines: seq<string>, i: nat, word: string)
    requires i < |lines| && Ascii(lines[i]) && Publishes(lines[i], word)
    ensures Lower(word) in RulesOf(idna, lines)
  {
    hide Lower, EncodeRule, FirstWord, IsRuleLine, Strip, Publishes, Ascii;
    PublishedWord(lines[i], word);
    WordIsAscii(lines[i], word);
    AsciiRule(idna, word);
    assert EncodeRule(idna, FirstWord(Strip(lines[i]))) == Lower(word);
  }

  lemma RuleComesFromLine(idna: string -> string, lines: seq<string>, rule: string) returns (i: nat, word: string)
    requires (forall i | 0 <= i < |lines| :: Ascii(lines[i])) && rule in RulesOf(idna, lines)
    ensures i < |lines| && Publishes(lines[i], word) && rule == Lower(word)
  {
    hide Lower, EncodeRule, FirstWord, IsRuleLine, Strip, Publishes, Ascii;
    i :| i < |lines| && IsRuleLine(lines[i]) && EncodeRule(idna, FirstWord(Strip(lines[i]))) == rule;
    word := FirstWord(Strip(lines[i]));
    PublishedWord(lines[i], word);
    WordIsAscii(lines[i], word);
    AsciiRule(idna, word);
  }

  /** A line of the text publishes that rule, in whatever case. */
  ghost predicate RuleOfText(lines: seq<string>, rule: string) {
    exists i, word :: 0 <= i < |lines| && Publishes(lines[i], word) && rule == Lower(word)
  }

  /** The rules of an ASCII text are exactly the first words of its lines, comments
      apart, in lower case. */
  lemma RulesExactly(idna: string -> string, lines: seq<string>, rule: string)
    requires forall i | 0 <= i < |lines| :: Ascii(lines[i])
    ensures rule in RulesOf(idna, lines) <==> RuleOfText(lines, rule)
  {
    hide Lower, RulesOf, Publishes, Ascii;
    if rule in RulesOf(idna, lines) {
      var i, word := RuleComesFromLine(idna, lines, rule);
    }
    if RuleOfText(lines, rule) {
      var i: nat, word :| i < |lines| && Publishes(lines[i], word) && rule == Lower(word);
      LineGivesRule(idna, lines, i, word);
    }
  }

  lemma WordIsAscii(line: string, word: string)
    requires Ascii(line) && Publishes(line, word)
    ensures Ascii(word)
  {
    var lead, rest :| AllSpace(lead) && line == lead + word + rest;
    assert forall i | 0 <= i < |word| :: word[i] == line[|lead| + i];
  }

  // --- the last label -------------------------------------------------------------------

  predicate AllMarks(s: string) { forall i | 0 <= i < |s| :: s[i] == '!' }

  predicate Unmarked(s: string) { s == "" || s[0] != '!' }

  /** The last label of a text. */
  ghost predicate LastLabel(s: string, part: string) {
    '.' !in part && (s == part || exists front :: s == front + "." + part)
  }

  lemma {:induction false} JoinSnoc(parts: seq<string>, last: string)
    requires parts != []
    ensures Join(parts + [last], '.') == Join(parts, '.') + "." + last
  {
    hide Join;
    if |parts| == 1 {
      JoinOne(parts[0], '.');
      JoinOne(last, '.');
      JoinCons(parts[0], [last], '.');
      assert parts == [parts[0]];
      assert parts + [last] == [parts[0]] + [last];
    } else {
      JoinSnoc(parts[1..], last);
      assert parts == [parts[0]] + parts[1..];
      assert parts + [last] == [parts[0]] + (parts[1..] + [last]);
      JoinCons(parts[0], parts[1..], '.');
      JoinCons(parts[0], parts[1..] + [last], '.');
    }
  }

  lemma SplitEndsInLast(s: string, part: string)
    ensures LastLabel(s, part) <==> Split(s, '.')[|Split(s, '.')| - 1] == part
  {
    hide Split, Join;
    var parts := Split(s, '.');
    JoinSplit(s, '.');
    var last := parts[|parts| - 1];
    assert parts == parts[..|parts| - 1] + [last];
    assert last in parts;
    if |parts| > 1 { JoinSnoc(parts[..|parts| - 1], last); } else { JoinOne(last, '.'); }
    if '.' !in part && s == part { SplitWhole(s, '.'); }
    forall front | '.' !in part && s == front + "." + part ensures last == part {
      JoinSplit(front, '.');
      JoinSnoc(Split(front, '.'), part);
      SplitJoin(Split(front, '.') + [part], '.');
    }
  }

  lemma {:induction false} MarksSplit(s: string) returns (marks: string)
    ensures AllMarks(marks) && s == marks + LStripMarks(s) && Unmarked(LStripMarks(s))
  {
    if s != "" && s[0] == '!' {
      var others := MarksSplit(s[1..]);
      marks := [s[0]] + others;
      assert s == [s[0]] + s[1..];
    } else {
      marks := "";
    }
  }

  lemma {:induction false} MarksOff(marks: string, rest: string)
    requires AllMarks(marks) && Unmarked(rest)
    ensures LStripMarks(marks + rest) == rest
  {
    if marks == "" {
      assert marks + rest == rest;
    } else {
      assert (marks + rest)[1..] == marks[1..] + rest;
      MarksOff(marks[1..], rest);
    }
  }

  /** The label a rule makes known is its last one, marks in front apart. */
  lemma RightLabelExactly(rule: string, part: string)
    ensures RightLabel(rule) == part
            <==> exists marks, rest :: AllMarks(marks) && Unmarked(rest) && rule == marks + rest && LastLabel(rest, part)
  {
    hide Split, LastLabel, LStripMarks;
    var marks := MarksSplit(rule);
    SplitEndsInLast(LStripMarks(rule), part);
    forall marks, rest | AllMarks(marks) && Unmarked(rest) && rule == marks + rest ensures rest == LStripMarks(rule) {
      MarksOff(marks, rest);
    }
  }

  // --- hosts -----------------------------------------------------------------------------

  predicate AllDots(s: string) { forall i | 0 <= i < |s| :: s[i] == '.' }

  lemma {:induction false} LDotsOff(lead: string, rest: string)
    requires AllDots(lead)
    ensures LStripDots(lead + rest) == LStripDots(rest)
  {
    if lead == "" {
      assert lead + rest == rest;
    } else {
      assert (lead + rest)[1..] == lead[1..] + rest;
      LDotsOff(lead[1..], rest);
    }
  }

  lemma {:induction false} RDotsOff(rest: string, tail: string)
    requires AllDots(tail)
    ensures RStripDots(rest + tail) == RStripDots(rest)
  {
    if tail == "" {
      assert rest + tail == rest;
    } else {
      assert (rest + tail)[..|rest + tail| - 1] == rest + tail[..|tail| - 1];
      RDotsOff(rest, tail[..|tail| - 1]);
    }
  }

  lemma {:induction false} LDotsSplit(s: string) returns (lead: string)
    ensures AllDots(lead) && s == lead + LStripDots(s)
  {
    if s != "" && s[0] == '.' {
      lead := LDotsSplit(s[1..]);
      lead := "." + lead;
    } else {
      lead := "";
    }
  }

  lemma {:induction false} RDotsSplit(s: string) returns (tail: string)
    ensures AllDots(tail) && s == RStripDots(s) + tail
  {
    if s != "" && s[|s| - 1] == '.' {
      tail := RDotsSplit(s[..|s| - 1]);
      tail := tail + ".";
    } else {
      tail := "";
    }
  }

  /** A host is looked up without its outer dots and in lower case, and otherwise as
      it is. */
  lemma NormalisedExactly(host: string, h: string)
    ensures Normalise(host) == h
            <==> exists lead, core, tail ::
                   AllDots(lead) && AllDots(tail) && NoOuterDots(core) && host == lead + core + tail && h == Lower(core)
  {
    hide Lower;
    var core := RStripDots(LStripDots(host));
    var lead := LDotsSplit(host);
    var tail := RDotsSplit(LStripDots(host));
    LStripDotsHead(host);
    RStripDotsPrefix(LStripDots(host));
    assert host == lead + core + tail;
    forall lead', core', tail' | AllDots(lead') && AllDots(tail') && NoOuterDots(core') && host == lead' + core' + tail'
      ensures core' == core
    {
      OneCore(lead', core', tail');
    }
  }

  lemma OneCore(lead: string, core: string, tail: string)
    requires AllDots(lead) && AllDots(tail) && NoOuterDots(core)
    ensures RStripDots(LStripDots(lead + core + tail)) == core
  {
    assert lead + core + tail == lead + (core + tail);
    LDotsOff(lead, core + tail);
    if core == "" {
      assert core + tail == tail == tail + "";
      LDotsOff(tail, "");
    } else {
      RDotsOff(core, tail);
    }
  }
}
