/** Public suffix lookup: `psl.py`.

    `SuffixList` is what a parsed list amounts to, `PublicSuffixList` the object
    that fills it line by line, `PslHolder` the one that swaps it. The rules as
    published, and the algorithm over them, are declared separately (`Matches`,
    `IsPublicSuffix`) and the lookup is proved equal to that. */
module PublicSuffix {
  import opened Wrappers
  import opened Text
  import ServerName

  /** The set-based form of a parsed list. `version` is its parsed stamp. */
  datatype SuffixList = SuffixList(
    version: Option<int>,
    normal: set<string>,
    wildcard: set<string>,
    exception: set<string>,
    tlds: set<string>)

  // --- the lookup -------------------------------------------------------------

  function Suffix(labels: seq<string>, i: nat): string
    requires i <= |labels|
  {
    Join(labels[i..], '.')
  }

  function OrNone(s: string): Option<string> { if s == "" then None else Some(s) }

  /** The first position at or after `i` whose candidate is an exception rule. */
  function FindException(list: SuffixList, labels: seq<string>, i: nat): (r: Option<nat>)
    requires i <= |labels|
    ensures r.Some? ==> i <= r.value < |labels| && Suffix(labels, r.value) in list.exception
    ensures forall j: nat | i <= j < (if r.Some? then r.value else |labels|) ::
              Suffix(labels, j) !in list.exception
    decreases |labels| - i
  {
    if i == |labels| then None
    else if Suffix(labels, i) in list.exception then Some(i)
    else FindException(list, labels, i + 1)
  }

  predicate RuleAt(list: SuffixList, labels: seq<string>, i: nat)
    requires i < |labels|
  {
    || Suffix(labels, i) in list.normal
    || (Suffix(labels, i + 1) != "" && Suffix(labels, i + 1) in list.wildcard)
  }

  function FindRule(list: SuffixList, labels: seq<string>, i: nat): (r: Option<nat>)
    requires i <= |labels|
    ensures r.Some? ==> i <= r.value < |labels| && RuleAt(list, labels, r.value)
    ensures forall j: nat | i <= j < (if r.Some? then r.value else |labels|) :: !RuleAt(list, labels, j)
    decreases |labels| - i
  {
    if i == |labels| then None
    else if RuleAt(list, labels, i) then Some(i)
    else FindRule(list, labels, i + 1)
  }

  function PublicSuffixOf(list: SuffixList, host: string): Option<string> {
    var labels := Split(host, '.');
    match FindException(list, labels, 0)
    case Some(i) => OrNone(Suffix(labels, i + 1))
    case None =>
      match FindRule(list, labels, 0)
      case Some(i) => Some(Suffix(labels, i))
      case None =>
        var tld := labels[|labels| - 1];
        if tld in list.tlds then Some(tld) else None
  }

  function LStripDots(s: string): string { if s != "" && s[0] == '.' then LStripDots(s[1..]) else s }

  function RStripDots(s: string): string {
    if s != "" && s[|s| - 1] == '.' then RStripDots(s[..|s| - 1]) else s
  }

  /** `host.strip(".").lower()` */
  function Normalise(host: string): string { Lower(RStripDots(LStripDots(host))) }

  function LastN(xs: seq<string>, n: nat): seq<string> { if n >= |xs| then xs else xs[|xs| - n..] }

  /** The bucket, and whether any rule or known TLD matched. */
  function Etld1(list: SuffixList, host: string): (string, bool) {
    var h := Normalise(host);
    match PublicSuffixOf(list, h)
    case None => (h, false)
    case Some(suffix) =>
      if h == suffix then (h, true)
      else (Join(LastN(Split(h, '.'), Count(suffix, '.') + 2), '.'), true)
  }

  // --- the published algorithm --------------------------------------------------

  datatype Kind = Normal | Wildcard | Exception

  function KindOf(rule: string): Kind {
    if StartsWith(rule, "!") then Exception
    else if StartsWith(rule, "*.") then Wildcard
    else Normal
  }

  /** The labels a rule is matched by; an exception's mark is not one. */
  function RuleLabels(rule: string): seq<string> {
    Split(if KindOf(rule) == Exception then rule[1..] else rule, '.')
  }

  /** Where a `*` label stands for any label: anywhere, as published, or only in
      front of a base, as the lookup has it. */
  datatype Stars = Anywhere | Leading

  predicate StarAt(stars: Stars, rule: string, j: nat)
    requires j < |RuleLabels(rule)|
  {
    match stars
    case Anywhere => RuleLabels(rule)[j] == "*"
    case Leading => KindOf(rule) == Wildcard && j == 0
  }

  /** A host matches a rule when its last labels are the rule's, stars aside. */
  predicate Matches(stars: Stars, rule: string, labels: seq<string>) {
    var pattern := RuleLabels(rule);
    && (stars == Leading ==> rule != "*.")
    && |pattern| <= |labels|
    && forall j | 0 <= j < |pattern| ::
         pattern[j] == labels[|labels| - |pattern| + j] || StarAt(stars, rule, j)
  }

  function LStripMarks(s: string): string { if s != "" && s[0] == '!' then LStripMarks(s[1..]) else s }

  /** The rightmost label of a rule, past any leading marks. */
  function RightLabel(rule: string): string {
    var parts := Split(LStripMarks(rule), '.');
    parts[|parts| - 1]
  }

  predicate KnownTld(rules: set<string>, tld: string) {
    exists rule | rule in rules :: RightLabel(rule) == tld
  }

  /** The longest matching rule among the exceptions (`exceptional`) or the rest. */
  predicate Longest(stars: Stars, rules: set<string>, labels: seq<string>, exceptional: bool, rule: string) {
    && rule in rules && (KindOf(rule) == Exception) == exceptional && Matches(stars, rule, labels)
    && forall other | other in rules && (KindOf(other) == Exception) == exceptional && Matches(stars, other, labels) ::
         |RuleLabels(other)| <= |RuleLabels(rule)|
  }

  predicate SomeMatch(stars: Stars, rules: set<string>, labels: seq<string>, exceptional: bool) {
    exists rule | rule in rules :: (KindOf(rule) == Exception) == exceptional && Matches(stars, rule, labels)
  }

  /** The publicsuffix.org algorithm: an exception prevails and loses its
      leftmost label; otherwise the longest match; otherwise the last label,
      when the list knows it. */
  ghost predicate IsPublicSuffix(stars: Stars, rules: set<string>, host: string, suffix: Option<string>) {
    var labels := Split(host, '.');
    if SomeMatch(stars, rules, labels, true) then
      exists rule | Longest(stars, rules, labels, true, rule) ::
        suffix == OrNone(Join(labels[|labels| - |RuleLabels(rule)| + 1..], '.'))
    else if SomeMatch(stars, rules, labels, false) then
      exists rule | Longest(stars, rules, labels, false, rule) ::
        suffix == Some(Join(labels[|labels| - |RuleLabels(rule)|..], '.'))
    else
      suffix == (if KnownTld(rules, labels[|labels| - 1]) then Some(labels[|labels| - 1]) else None)
  }

  /** The sets hold exactly the rules. */
  ghost predicate BuiltFrom(list: SuffixList, rules: set<string>) {
    && list.normal == (set r | r in rules && KindOf(r) == Normal)
    && list.wildcard == (set r | r in rules && KindOf(r) == Wildcard :: r[2..])
    && list.exception == (set r | r in rules && KindOf(r) == Exception :: r[1..])
    && list.tlds == (set r | r in rules :: RightLabel(r))
  }

  // --- lookup equals algorithm --------------------------------------------------

  lemma TailFree(labels: seq<string>, i: nat)
    requires SepFree(labels, '.') && i <= |labels|
    ensures SepFree(labels[i..], '.')
  {}

  /** A dotted text is the tail at `i` exactly when its labels are. */
  lemma TailText(text: string, labels: seq<string>, i: nat)
    requires SepFree(labels, '.') && i < |labels|
    ensures text == Suffix(labels, i) <==> Split(text, '.') == labels[i..]
  {
    TailFree(labels, i);
    JoinSplit(text, '.');
    SplitJoin(labels[i..], '.');
  }

  lemma StarDot()
    ensures KindOf("*.") == Wildcard
  {
    assert "*."[0] == '*' && "!"[0] == '!';
  }

  predicate EndsWithLabels(pattern: seq<string>, labels: seq<string>) {
    |pattern| <= |labels| && forall j | 0 <= j < |pattern| :: pattern[j] == labels[|labels| - |pattern| + j]
  }

  /** Matching label by label, with no wildcard, is being the tail. */
  lemma PlainMatch(rule: string, labels: seq<string>, i: nat)
    requires KindOf(rule) != Wildcard && i < |labels|
    ensures Matches(Leading, rule, labels) && |RuleLabels(rule)| == |labels| - i <==> RuleLabels(rule) == labels[i..]
  {
    StarDot();
    var pattern := RuleLabels(rule);
    assert Matches(Leading, rule, labels) <==> EndsWithLabels(pattern, labels);
    PlainTail(pattern, labels, i);
  }

  lemma PlainTail(pattern: seq<string>, labels: seq<string>, i: nat)
    requires i < |labels|
    ensures EndsWithLabels(pattern, labels) && |pattern| == |labels| - i <==> pattern == labels[i..]
  {
    if pattern == labels[i..] {
      assert forall j | 0 <= j < |labels| - i :: labels[i..][j] == labels[i + j];
    }
  }

  lemma NormalMatch(rule: string, labels: seq<string>, i: nat)
    requires KindOf(rule) == Normal && SepFree(labels, '.') && i < |labels|
    ensures rule == Suffix(labels, i) <==> Matches(Leading, rule, labels) && |RuleLabels(rule)| == |labels| - i
  {
    TailText(rule, labels, i);
    PlainMatch(rule, labels, i);
  }

  lemma ExceptionMatch(rule: string, labels: seq<string>, i: nat)
    requires KindOf(rule) == Exception && SepFree(labels, '.') && i < |labels|
    ensures rule[1..] == Suffix(labels, i) <==> Matches(Leading, rule, labels) && |RuleLabels(rule)| == |labels| - i
  {
    TailText(rule[1..], labels, i);
    PlainMatch(rule, labels, i);
  }

  lemma WildcardLabels(rule: string)
    requires KindOf(rule) == Wildcard
    ensures RuleLabels(rule) == ["*"] + Split(rule[2..], '.')
  {
    assert rule == "*" + "." + rule[2..];
    FirstSep("*", '.', rule[2..]);
    SplitStep(rule, '.', 1);
    assert rule[..1] == "*";
  }

  lemma SuffixEnd(labels: seq<string>)
    ensures Suffix(labels, |labels|) == ""
  {}

  /** Matching a wildcard rule is having its base one label further on. */
  lemma WildcardTail(rule: string, labels: seq<string>, i: nat)
    requires KindOf(rule) == Wildcard && i < |labels|
    ensures Matches(Leading, rule, labels) && |RuleLabels(rule)| == |labels| - i
            <==> rule != "*." && Split(rule[2..], '.') == labels[i + 1..]
  {
    hide Split, RuleLabels;
    WildcardLabels(rule);
    var pattern, base := RuleLabels(rule), Split(rule[2..], '.');
    if base == labels[i + 1..] {
      assert forall j | 1 <= j < |pattern| :: pattern[j] == labels[i + 1..][j - 1] == labels[i + j];
    }
    if Matches(Leading, rule, labels) && |pattern| == |labels| - i {
      assert forall j | 0 <= j < |base| :: base[j] == pattern[j + 1];
    }
  }

  lemma WildcardMatch(rule: string, labels: seq<string>, i: nat)
    requires KindOf(rule) == Wildcard && SepFree(labels, '.') && i < |labels|
    ensures Suffix(labels, i + 1) != "" && rule[2..] == Suffix(labels, i + 1)
            <==> Matches(Leading, rule, labels) && |RuleLabels(rule)| == |labels| - i
  {
    hide Split, Join, Matches, RuleLabels;
    WildcardTail(rule, labels, i);
    TailFree(labels, i + 1);
    JoinSplit(rule[2..], '.');
    assert rule == "*." <==> rule[2..] == "" by { WildcardHead(rule); }
    SuffixEnd(labels);
    if i + 1 < |labels| {
      SplitJoin(labels[i + 1..], '.');
    }
  }

  lemma WildcardHead(rule: string)
    requires KindOf(rule) == Wildcard
    ensures rule == "*." + rule[2..]
  {}

  /** A non-exception rule applies at `i` exactly when one of that length matches. */
  lemma RuleAtMatches(list: SuffixList, rules: set<string>, labels: seq<string>, i: nat)
    requires BuiltFrom(list, rules) && SepFree(labels, '.') && i < |labels|
    ensures RuleAt(list, labels, i) <==>
            exists rule | rule in rules ::
              KindOf(rule) != Exception && Matches(Leading, rule, labels) && |RuleLabels(rule)| == |labels| - i
  {
    if RuleAt(list, labels, i) {
      if Suffix(labels, i) in list.normal {
        NormalMatch(Suffix(labels, i), labels, i);
      } else {
        var rule :| rule in rules && KindOf(rule) == Wildcard && rule[2..] == Suffix(labels, i + 1);
        WildcardMatch(rule, labels, i);
      }
    }
    forall rule | rule in rules && KindOf(rule) != Exception && Matches(Leading, rule, labels)
                  && |RuleLabels(rule)| == |labels| - i
      ensures RuleAt(list, labels, i)
    {
      if KindOf(rule) == Normal {
        NormalMatch(rule, labels, i);
      } else {
        WildcardMatch(rule, labels, i);
      }
    }
  }

  lemma ExceptionAtMatches(list: SuffixList, rules: set<string>, labels: seq<string>, i: nat)
    requires BuiltFrom(list, rules) && SepFree(labels, '.') && i < |labels|
    ensures Suffix(labels, i) in list.exception <==>
            exists rule | rule in rules ::
              KindOf(rule) == Exception && Matches(Leading, rule, labels) && |RuleLabels(rule)| == |labels| - i
  {
    if Suffix(labels, i) in list.exception {
      var rule :| rule in rules && KindOf(rule) == Exception && rule[1..] == Suffix(labels, i);
      ExceptionMatch(rule, labels, i);
    }
    forall rule | rule in rules && KindOf(rule) == Exception && Matches(Leading, rule, labels)
                  && |RuleLabels(rule)| == |labels| - i
      ensures Suffix(labels, i) in list.exception
    {
      ExceptionMatch(rule, labels, i);
    }
  }

  /** What the first loop finds is the longest matching exception. */
  lemma FindExceptionIsLongest(list: SuffixList, rules: set<string>, labels: seq<string>)
    requires BuiltFrom(list, rules) && SepFree(labels, '.')
    ensures var found := FindException(list, labels, 0);
            && (found.Some? <==> SomeMatch(Leading, rules, labels, true))
            && (found.Some? ==> exists rule :: Longest(Leading, rules, labels, true, rule)
                                               && |RuleLabels(rule)| == |labels| - found.value)
  {
    var found := FindException(list, labels, 0);
    var limit := if found.Some? then found.value else |labels|;
    forall rule | rule in rules && KindOf(rule) == Exception && Matches(Leading, rule, labels)
      ensures found.Some? && |RuleLabels(rule)| <= |labels| - limit
    {
      ExceptionAtMatches(list, rules, labels, |labels| - |RuleLabels(rule)|);
    }
    if found.Some? {
      ExceptionAtMatches(list, rules, labels, found.value);
      var rule :| rule in rules && KindOf(rule) == Exception && Matches(Leading, rule, labels)
                  && |RuleLabels(rule)| == |labels| - found.value;
      assert Longest(Leading, rules, labels, true, rule);
    }
  }

  /** What the second loop finds is the longest matching rule. */
  lemma FindRuleIsLongest(list: SuffixList, rules: set<string>, labels: seq<string>)
    requires BuiltFrom(list, rules) && SepFree(labels, '.')
    ensures var found := FindRule(list, labels, 0);
            && (found.Some? <==> SomeMatch(Leading, rules, labels, false))
            && (found.Some? ==> exists rule :: Longest(Leading, rules, labels, false, rule)
                                               && |RuleLabels(rule)| == |labels| - found.value)
  {
    var found := FindRule(list, labels, 0);
    var limit := if found.Some? then found.value else |labels|;
    forall rule | rule in rules && KindOf(rule) != Exception && Matches(Leading, rule, labels)
      ensures found.Some? && |RuleLabels(rule)| <= |labels| - limit
    {
      RuleAtMatches(list, rules, labels, |labels| - |RuleLabels(rule)|);
    }
    if found.Some? {
      RuleAtMatches(list, rules, labels, found.value);
      var rule :| rule in rules && KindOf(rule) != Exception && Matches(Leading, rule, labels)
                  && |RuleLabels(rule)| == |labels| - found.value;
      assert Longest(Leading, rules, labels, false, rule);
    }
  }

  /** On any rules, the algorithm with stars only in front gives one answer, and the
      lookup gives it. */
  lemma LookupHonoursLeadingStars(list: SuffixList, rules: set<string>, host: string, suffix: Option<string>)
    requires BuiltFrom(list, rules)
    ensures IsPublicSuffix(Leading, rules, host, suffix) <==> suffix == PublicSuffixOf(list, host)
  {
    hide Split, Join, FindException, FindRule, Matches, RuleLabels, RightLabel, SomeMatch;
    var labels := Split(host, '.');
    FindExceptionIsLongest(list, rules, labels);
    FindRuleIsLongest(list, rules, labels);
    TldsAreKnown(list, rules, labels[|labels| - 1]);
    SameLongest(Leading, rules, labels, true);
    SameLongest(Leading, rules, labels, false);
  }

  lemma TldsAreKnown(list: SuffixList, rules: set<string>, tld: string)
    requires BuiltFrom(list, rules)
    ensures KnownTld(rules, tld) <==> tld in list.tlds
  {
    hide RightLabel;
  }

  /** Two longest matches are equally long. */
  lemma SameLongest(stars: Stars, rules: set<string>, labels: seq<string>, exceptional: bool)
    ensures forall a, b | Longest(stars, rules, labels, exceptional, a) && Longest(stars, rules, labels, exceptional, b) ::
              |RuleLabels(a)| == |RuleLabels(b)|
  {
    hide Matches, RuleLabels, KindOf;
  }

  // --- the published stars -----------------------------------------------------------

  /** Stars occur only as the first label of a rule with a base, and in no exception. */
  predicate StarsLead(rule: string) {
    var pattern := RuleLabels(rule);
    forall j | 0 <= j < |pattern| && pattern[j] == "*" :: j == 0 && KindOf(rule) == Wildcard && rule != "*."
  }

  lemma LabelsAreFree(rule: string)
    ensures SepFree(RuleLabels(rule), '.') && RuleLabels(rule) != []
  {
    JoinSplit(if KindOf(rule) == Exception then rule[1..] else rule, '.');
  }

  lemma LeadingStar(rule: string)
    requires KindOf(rule) == Wildcard
    ensures RuleLabels(rule)[0] == "*"
  {
    WildcardLabels(rule);
  }

  lemma SameMatches(rule: string, labels: seq<string>)
    requires StarsLead(rule)
    ensures Matches(Anywhere, rule, labels) <==> Matches(Leading, rule, labels)
  {
    hide Split, RuleLabels, KindOf;
    LabelsAreFree(rule);
    if KindOf(rule) == Wildcard { LeadingStar(rule); }
    if rule == "*." {
      StarDot();
      LeadingStar(rule);
    }
    assert forall j | 0 <= j < |RuleLabels(rule)| :: StarAt(Anywhere, rule, j) <==> StarAt(Leading, rule, j);
  }

  /** A rule's own labels with one of them replaced. */
  function Instance(rule: string, j: nat, x: string): string
    requires j < |RuleLabels(rule)|
  {
    Join(RuleLabels(rule)[j := x], '.')
  }

  lemma InstanceLabels(rule: string, j: nat, x: string)
    requires j < |RuleLabels(rule)| && '.' !in x
    ensures Split(Instance(rule, j, x), '.') == RuleLabels(rule)[j := x]
  {
    hide Split, Join, RuleLabels;
    LabelsAreFree(rule);
    SplitJoin(RuleLabels(rule)[j := x], '.');
  }

  /** A misplaced star matches what the lookup does not. */
  lemma MisplacedStar(rule: string, j: nat, x: string)
    requires j < |RuleLabels(rule)| && RuleLabels(rule)[j] == "*" && '.' !in x && x != "*"
    requires !(j == 0 && KindOf(rule) == Wildcard && rule != "*.")
    ensures Matches(Anywhere, rule, Split(Instance(rule, j, x), '.'))
    ensures !Matches(Leading, rule, Split(Instance(rule, j, x), '.'))
  {
    hide Split, Join, RuleLabels, Instance, KindOf;
    InstanceLabels(rule, j, x);
    var labels := RuleLabels(rule)[j := x];
    assert |labels| == |RuleLabels(rule)|;
    assert RuleLabels(rule)[j] != labels[|labels| - |RuleLabels(rule)| + j];
  }

  /** The lookup's match of a rule is the published one on every host, exactly when
      the rule's stars lead. */
  lemma MatchIsPublishedExactly(rule: string)
    ensures (forall host :: Matches(Anywhere, rule, Split(host, '.')) <==> Matches(Leading, rule, Split(host, '.')))
            <==> StarsLead(rule)
  {
    hide Split, Join, RuleLabels, Instance, KindOf, Matches;
    if StarsLead(rule) {
      forall host ensures Matches(Anywhere, rule, Split(host, '.')) <==> Matches(Leading, rule, Split(host, '.')) {
        SameMatches(rule, Split(host, '.'));
      }
    } else {
      var j: nat :| j < |RuleLabels(rule)| && RuleLabels(rule)[j] == "*"
                    && !(j == 0 && KindOf(rule) == Wildcard && rule != "*.");
      MisplacedStar(rule, j, "x");
    }
  }

  /** Where every rule matches the same, the algorithm is the same. */
  lemma SameAlgorithm(rules: set<string>, host: string, suffix: Option<string>)
    requires forall rule | rule in rules ::
               Matches(Anywhere, rule, Split(host, '.')) <==> Matches(Leading, rule, Split(host, '.'))
    ensures IsPublicSuffix(Anywhere, rules, host, suffix) <==> IsPublicSuffix(Leading, rules, host, suffix)
  {
    hide Split, Join, RuleLabels, Matches, KindOf, KnownTld;
    var labels := Split(host, '.');
    forall exceptional, rule
      ensures Longest(Anywhere, rules, labels, exceptional, rule) <==> Longest(Leading, rules, labels, exceptional, rule)
    {
    }
  }

  /** For a list built from rules whose stars lead, the lookup is the published
      algorithm. */
  lemma LookupEqualsAlgorithm(list: SuffixList, rules: set<string>, host: string, suffix: Option<string>)
    requires BuiltFrom(list, rules) && forall rule | rule in rules :: StarsLead(rule)
    ensures IsPublicSuffix(Anywhere, rules, host, suffix) <==> suffix == PublicSuffixOf(list, host)
  {
    hide IsPublicSuffix, PublicSuffixOf, Matches, StarsLead, BuiltFrom;
    forall rule | rule in rules
      ensures Matches(Anywhere, rule, Split(host, '.')) <==> Matches(Leading, rule, Split(host, '.'))
    {
      SameMatches(rule, Split(host, '.'));
    }
    SameAlgorithm(rules, host, suffix);
    LookupHonoursLeadingStars(list, rules, host, suffix);
  }

  // --- and only there ------------------------------------------------------------------

  ghost predicate LongerThanAll(n: nat, rules: set<string>) { forall rule | rule in rules :: |rule| < n }

  lemma {:induction false} SomeLonger(rules: set<string>) returns (n: nat)
    ensures LongerThanAll(n, rules) && n > 1
  {
    if rules == {} {
      n := 2;
    } else {
      var rule :| rule in rules;
      var m := SomeLonger(rules - {rule});
      n := if m > |rule| then m else |rule| + 1;
    }
  }

  lemma {:induction false} LabelNoLonger(s: string, sep: char, j: nat)
    requires j < |Split(s, sep)|
    ensures |Split(s, sep)[j]| <= |s|
    decreases |s|
  {
    var i := IndexOf(s, sep);
    if i < 0 {
      SplitWhole(s, sep);
    } else {
      SplitStep(s, sep, i);
      if j > 0 { LabelNoLonger(s[i + 1..], sep, j - 1); }
    }
  }

  lemma {:induction false} MarksNoLonger(s: string)
    ensures |LStripMarks(s)| <= |s|
  {
    if s != "" && s[0] == '!' { MarksNoLonger(s[1..]); }
  }

  /** A label longer than every rule occurs in none. */
  lemma LongLabelIsNew(rules: set<string>, rule: string, x: string)
    requires LongerThanAll(|x|, rules) && rule in rules
    ensures RightLabel(rule) != x
    ensures KindOf(rule) != Exception ==> x !in RuleLabels(rule)
  {
    hide Split;
    MarksNoLonger(rule);
    var parts := Split(LStripMarks(rule), '.');
    LabelNoLonger(LStripMarks(rule), '.', |parts| - 1);
    if KindOf(rule) != Exception {
      forall j | 0 <= j < |RuleLabels(rule)| ensures RuleLabels(rule)[j] != x { LabelNoLonger(rule, '.', j); }
    }
  }

  lemma LoneStar(rule: string)
    requires KindOf(rule) == Normal && RuleLabels(rule)[0] == "*"
    ensures |RuleLabels(rule)| == 1
  {
    hide Split, Join;
    JoinSplit(rule, '.');
    var pattern := RuleLabels(rule);
    if |pattern| > 1 {
      assert pattern == ["*"] + pattern[1..];
      JoinCons("*", pattern[1..], '.');
    }
  }

  /** No rule matches the whole of a misplaced star's instance the lookup's way. */
  lemma NoFullMatch(rules: set<string>, rule: string, j: nat, x: string, other: string)
    requires rule in rules && other in rules && KindOf(rule) != Exception && KindOf(other) != Exception
    requires j < |RuleLabels(rule)| && RuleLabels(rule)[j] == "*" && !(j == 0 && KindOf(rule) == Wildcard && rule != "*.")
    requires LongerThanAll(|x|, rules) && Matches(Leading, other, RuleLabels(rule)[j := x])
    ensures |RuleLabels(other)| < |RuleLabels(rule)|
  {
    hide Split, Join, RuleLabels, KindOf;
    LongLabelIsNew(rules, other, x);
    var labels := RuleLabels(rule)[j := x];
    if KindOf(other) == Wildcard { EmptyBase(other); }
    if KindOf(rule) == Wildcard { EmptyBase(rule); }
    if KindOf(rule) == Normal && j == 0 { LoneStar(rule); }
    assert j < |RuleLabels(other)| ==> RuleLabels(other)[j] in RuleLabels(other);
  }

  /** A star with an empty base is the rule `*.` alone. */
  lemma EmptyBase(rule: string)
    requires KindOf(rule) == Wildcard
    ensures |RuleLabels(rule)| >= 2
    ensures rule == "*." <==> |RuleLabels(rule)| == 2 && RuleLabels(rule)[1] == ""
  {
    hide Split, Join;
    BaseLabels(rule);
    WildcardLabels(rule);
    SplitWhole("", '.');
    if |RuleLabels(rule)| == 2 {
      assert RuleLabels(rule)[1..] == [RuleLabels(rule)[1]];
      JoinOne(RuleLabels(rule)[1], '.');
    }
  }

  /** A wildcard rule is its labels. */
  lemma BaseLabels(rule: string)
    requires KindOf(rule) == Wildcard
    ensures |RuleLabels(rule)| >= 2 && Join(RuleLabels(rule)[1..], '.') == rule[2..] && rule == "*." + rule[2..]
  {
    hide Split, Join;
    WildcardLabels(rule);
    WildcardHead(rule);
    JoinSplit(rule[2..], '.');
    assert RuleLabels(rule)[1..] == Split(rule[2..], '.');
  }

  /** On an instance of a misplaced star, no exceptions interfering, the published
      algorithm gives the whole host, and the lookup does not. */
  lemma MisplacedStarDiffers(list: SuffixList, rules: set<string>, rule: string, j: nat, x: string)
    requires BuiltFrom(list, rules) && rule in rules && forall r | r in rules :: KindOf(r) != Exception
    requires j < |RuleLabels(rule)| && RuleLabels(rule)[j] == "*" && !(j == 0 && KindOf(rule) == Wildcard && rule != "*.")
    requires LongerThanAll(|x|, rules) && '.' !in x && x != "*"
    ensures var host := Instance(rule, j, x);
            IsPublicSuffix(Anywhere, rules, host, Some(host)) && PublicSuffixOf(list, host) != Some(host)
  {
    hide Split, Join, RuleLabels, KindOf, Matches, PublicSuffixOf, BuiltFrom, RightLabel;
    var host := Instance(rule, j, x);
    var labels := RuleLabels(rule)[j := x];
    InstanceLabels(rule, j, x);
    MisplacedStar(rule, j, x);
    LabelsAreFree(rule);
    MatchesAreShort(Anywhere, labels);
    assert Longest(Anywhere, rules, labels, false, rule);
    assert labels[0..] == labels;
    assert IsPublicSuffix(Anywhere, rules, host, Some(host));
    WholeIsNotFound(rules, rule, j, x);
    LookupHonoursLeadingStars(list, rules, host, Some(host));
  }

  lemma MatchesAreShort(stars: Stars, labels: seq<string>)
    ensures forall rule | Matches(stars, rule, labels) :: |RuleLabels(rule)| <= |labels|
  {
    hide Split, RuleLabels, KindOf;
  }

  lemma WholeIsNotFound(rules: set<string>, rule: string, j: nat, x: string)
    requires rule in rules && forall r | r in rules :: KindOf(r) != Exception
    requires j < |RuleLabels(rule)| && RuleLabels(rule)[j] == "*" && !(j == 0 && KindOf(rule) == Wildcard && rule != "*.")
    requires LongerThanAll(|x|, rules) && '.' !in x && x != "*"
    ensures !IsPublicSuffix(Leading, rules, Instance(rule, j, x), Some(Instance(rule, j, x)))
  {
    hide Split, Join, RuleLabels, KindOf, Matches, RightLabel;
    var labels := RuleLabels(rule)[j := x];
    InstanceLabels(rule, j, x);
    LabelsAreFree(rule);
    MatchesAreShort(Leading, labels);
    forall other | Longest(Leading, rules, labels, false, other)
      ensures Join(labels[|labels| - |RuleLabels(other)|..], '.') != Join(labels, '.')
    {
      NoFullMatch(rules, rule, j, x, other);
      LabelsAreFree(other);
      var tail := labels[|labels| - |RuleLabels(other)|..];
      if Join(tail, '.') == Join(labels, '.') { JoinInjective(tail, labels, '.'); }
    }
    if KnownTld(rules, labels[|labels| - 1]) && labels[|labels| - 1] == Join(labels, '.') {
      var last := labels[|labels| - 1];
      assert Join([last], '.') == last by { JoinOne(last, '.'); }
      JoinInjective([last], labels, '.');
      assert last == x;
      var r :| r in rules && RightLabel(r) == last;
      LongLabelIsNew(rules, r, x);
    }
  }

  /** For a list without exceptions, the lookup is the published algorithm on every
      host, exactly when the stars of all rules lead. */
  lemma LookupIsPublishedExactly(list: SuffixList, rules: set<string>)
    requires BuiltFrom(list, rules) && forall rule | rule in rules :: KindOf(rule) != Exception
    ensures (forall host, suffix :: IsPublicSuffix(Anywhere, rules, host, suffix) <==> suffix == PublicSuffixOf(list, host))
            <==> forall rule | rule in rules :: StarsLead(rule)
  {
    hide Split, Join, RuleLabels, KindOf, Matches, IsPublicSuffix, PublicSuffixOf, BuiltFrom, Instance;
    if forall rule | rule in rules :: StarsLead(rule) {
      forall host, suffix ensures IsPublicSuffix(Anywhere, rules, host, suffix) <==> suffix == PublicSuffixOf(list, host) {
        LookupEqualsAlgorithm(list, rules, host, suffix);
      }
    } else {
      var rule :| rule in rules && !StarsLead(rule);
      var j: nat :| j < |RuleLabels(rule)| && RuleLabels(rule)[j] == "*"
                    && !(j == 0 && KindOf(rule) == Wildcard && rule != "*.");
      var n := SomeLonger(rules);
      var x := seq(n, _ => 'x');
      assert x[0] == 'x' && '.' !in x;
      MisplacedStarDiffers(list, rules, rule, j, x);
    }
  }

  // --- with exceptions -----------------------------------------------------------------

  lemma StarInTheMiddle()
    ensures RuleLabels("a.*.b") == ["a", "*", "b"] && KindOf("a.*.b") == Normal
  {
    hide Split, Join;
    JoinOne("b", '.');
    JoinCons("*", ["b"], '.');
    JoinCons("a", ["*", "b"], '.');
    assert ["*"] + ["b"] == ["*", "b"] && ["a"] + ["*", "b"] == ["a", "*", "b"];
    assert "*" + ['.'] + "b" == "*.b" && "a" + ['.'] + "*.b" == "a.*.b";
    SplitJoin(["a", "*", "b"], '.');
    assert "a.*.b"[0] == 'a' && "!"[0] == '!' && "*."[0] == '*';
  }

  /** A star in the middle: published, `a.*.b` matches `a.x.b`; the lookup does not
      see it, and answers less. */
  lemma MiddleStarWitness(list: SuffixList)
    requires BuiltFrom(list, {"a.*.b"})
    ensures !StarsLead("a.*.b")
    ensures var host := Instance("a.*.b", 1, "xxxxxx");
            IsPublicSuffix(Anywhere, {"a.*.b"}, host, Some(host)) && PublicSuffixOf(list, host) != Some(host)
  {
    hide Split, Join, RuleLabels, KindOf, IsPublicSuffix, PublicSuffixOf, BuiltFrom, Instance;
    StarInTheMiddle();
    MisplacedStarDiffers(list, {"a.*.b"}, "a.*.b", 1, "xxxxxx");
  }

  lemma ExceptionBelow()
    ensures KindOf("!b") == Exception && RuleLabels("!b") == ["b"]
  {
    assert "!b"[1..] == "b";
    SplitWhole("b", '.');
  }

  /** Why only without exceptions: an exception that always prevails over a misplaced
      star hides the difference. */
  lemma ExceptionHidesTheStar(list: SuffixList, host: string, suffix: Option<string>)
    requires BuiltFrom(list, {"a.*.b", "!b"})
    ensures IsPublicSuffix(Anywhere, {"a.*.b", "!b"}, host, suffix) <==> suffix == PublicSuffixOf(list, host)
  {
    hide Split, Join, RuleLabels, KindOf, PublicSuffixOf, BuiltFrom, RightLabel, OrNone;
    var rules := {"a.*.b", "!b"};
    var labels := Split(host, '.');
    StarInTheMiddle();
    ExceptionBelow();
    LookupHonoursLeadingStars(list, rules, host, suffix);
    SameMatches("!b", labels);
    if Matches(Anywhere, "a.*.b", labels) || Matches(Leading, "a.*.b", labels) {
      assert RuleLabels("a.*.b")[2] == labels[|labels| - 3 + 2];
      assert Matches(Anywhere, "!b", labels);
    }
    hide Matches;
    assert SomeMatch(Anywhere, rules, labels, true) <==> SomeMatch(Leading, rules, labels, true);
    assert forall rule :: Longest(Anywhere, rules, labels, true, rule) <==> Longest(Leading, rules, labels, true, rule);
    assert !SomeMatch(Anywhere, rules, labels, true) ==> !SomeMatch(Anywhere, rules, labels, false);
    assert !SomeMatch(Leading, rules, labels, true) ==> !SomeMatch(Leading, rules, labels, false);
  }

  // --- for any list: finitely many hosts decide -------------------------------------------

  /** How many of a host's labels are its suffix, if any. */
  datatype Kept = NoSuffix | Keep(n: nat)

  function TextOf(labels: seq<string>, kept: Kept): Option<string>
    requires kept.Keep? ==> kept.n <= |labels|
  {
    match kept
    case NoSuffix => None
    case Keep(n) => Some(Join(labels[|labels| - n..], '.'))
  }

  /** What an exception of `n` labels leaves; an empty text is no suffix. */
  function ExceptionKeeps(labels: seq<string>, n: nat): Kept
    requires labels != []
  {
    if n <= 1 || (n == 2 && labels[|labels| - 1] == "") then NoSuffix else Keep(n - 1)
  }

  /** The algorithm, by the number of labels it keeps. */
  ghost predicate Keeps(stars: Stars, rules: set<string>, labels: seq<string>, kept: Kept)
    requires labels != []
  {
    if SomeMatch(stars, rules, labels, true) then
      exists rule | Longest(stars, rules, labels, true, rule) :: kept == ExceptionKeeps(labels, |RuleLabels(rule)|)
    else if SomeMatch(stars, rules, labels, false) then
      exists rule | Longest(stars, rules, labels, false, rule) :: kept == Keep(|RuleLabels(rule)|)
    else
      kept == (if KnownTld(rules, labels[|labels| - 1]) then Keep(1) else NoSuffix)
  }

  lemma {:induction false} LongestExists(stars: Stars, all: set<string>, some: set<string>, labels: seq<string>,
                                         exceptional: bool) returns (best: string)
    requires some <= all && exists rule | rule in some :: (KindOf(rule) == Exception) == exceptional && Matches(stars, rule, labels)
    ensures Longest(stars, some, labels, exceptional, best)
    decreases |some|
  {
    hide Matches, RuleLabels, KindOf;
    var rule :| rule in some && (KindOf(rule) == Exception) == exceptional && Matches(stars, rule, labels);
    var rest := some - {rule};
    if exists other | other in rest :: (KindOf(other) == Exception) == exceptional && Matches(stars, other, labels) {
      var next := LongestExists(stars, all, rest, labels, exceptional);
      best := if |RuleLabels(next)| >= |RuleLabels(rule)| then next else rule;
    } else {
      best := rule;
    }
  }

  lemma SomeKept(stars: Stars, rules: set<string>, labels: seq<string>) returns (kept: Kept)
    requires labels != []
    ensures Keeps(stars, rules, labels, kept)
  {
    hide Matches, RuleLabels, KindOf, KnownTld;
    if SomeMatch(stars, rules, labels, true) {
      var rule := LongestExists(stars, rules, rules, labels, true);
      kept := ExceptionKeeps(labels, |RuleLabels(rule)|);
    } else if SomeMatch(stars, rules, labels, false) {
      var rule := LongestExists(stars, rules, rules, labels, false);
      kept := Keep(|RuleLabels(rule)|);
    } else {
      kept := if KnownTld(rules, labels[|labels| - 1]) then Keep(1) else NoSuffix;
    }
  }

  lemma ExceptionText(labels: seq<string>, n: nat)
    requires labels != [] && 1 <= n <= |labels|
    ensures ExceptionKeeps(labels, n).Keep? ==> ExceptionKeeps(labels, n).n <= |labels|
    ensures OrNone(Join(labels[|labels| - n + 1..], '.')) == TextOf(labels, ExceptionKeeps(labels, n))
  {
    var tail := labels[|labels| - n + 1..];
    if n == 2 {
      assert tail == [labels[|labels| - 1]];
    } else if n > 2 {
      TailStep(tail);
    }
  }

  lemma KeptByException(stars: Stars, rules: set<string>, host: string, rule: string, suffix: Option<string>)
    requires SomeMatch(stars, rules, Split(host, '.'), true) && Longest(stars, rules, Split(host, '.'), true, rule)
    ensures var labels, n := Split(host, '.'), |RuleLabels(rule)|;
            && 1 <= n <= |labels|
            && (IsPublicSuffix(stars, rules, host, suffix) <==> suffix == OrNone(Join(labels[|labels| - n + 1..], '.')))
  {
    hide Split, Join, RuleLabels, KindOf, KnownTld, OrNone, SomeMatch;
    MatchesAreShort(stars, Split(host, '.'));
    LabelsAreFree(rule);
    SameLongest(stars, rules, Split(host, '.'), true);
    hide Matches;
  }

  lemma KeptByRule(stars: Stars, rules: set<string>, host: string, rule: string, suffix: Option<string>)
    requires !SomeMatch(stars, rules, Split(host, '.'), true) && SomeMatch(stars, rules, Split(host, '.'), false)
    requires Longest(stars, rules, Split(host, '.'), false, rule)
    ensures var labels, n := Split(host, '.'), |RuleLabels(rule)|;
            && 1 <= n <= |labels|
            && (IsPublicSuffix(stars, rules, host, suffix) <==> suffix == Some(Join(labels[|labels| - n..], '.')))
  {
    hide Split, Join, RuleLabels, KindOf, KnownTld, OrNone, SomeMatch;
    MatchesAreShort(stars, Split(host, '.'));
    LabelsAreFree(rule);
    SameLongest(stars, rules, Split(host, '.'), false);
    hide Matches;
  }

  /** The kept labels are the suffix. */
  lemma KeptIsSuffix(stars: Stars, rules: set<string>, host: string, kept: Kept, suffix: Option<string>)
    requires Keeps(stars, rules, Split(host, '.'), kept)
    ensures kept.Keep? ==> 1 <= kept.n <= |Split(host, '.')|
    ensures IsPublicSuffix(stars, rules, host, suffix) <==> suffix == TextOf(Split(host, '.'), kept)
  {
    hide Split, Join, RuleLabels, KindOf, KnownTld, OrNone, SomeMatch, Longest, IsPublicSuffix, Matches;
    var labels := Split(host, '.');
    if SomeMatch(stars, rules, labels, true) {
      var rule :| Longest(stars, rules, labels, true, rule) && kept == ExceptionKeeps(labels, |RuleLabels(rule)|);
      KeptByException(stars, rules, host, rule, suffix);
      ExceptionText(labels, |RuleLabels(rule)|);
    } else if SomeMatch(stars, rules, labels, false) {
      var rule :| Longest(stars, rules, labels, false, rule) && kept == Keep(|RuleLabels(rule)|);
      KeptByRule(stars, rules, host, rule, suffix);
    } else {
      KeptByDefault(stars, rules, host, suffix);
    }
  }

  lemma KeptByDefault(stars: Stars, rules: set<string>, host: string, suffix: Option<string>)
    requires !SomeMatch(stars, rules, Split(host, '.'), true) && !SomeMatch(stars, rules, Split(host, '.'), false)
    ensures var labels := Split(host, '.');
            IsPublicSuffix(stars, rules, host, suffix)
            <==> suffix == TextOf(labels, if KnownTld(rules, labels[|labels| - 1]) then Keep(1) else NoSuffix)
  {
    hide Split, Join, RuleLabels, KindOf, KnownTld, SomeMatch;
    var labels := Split(host, '.');
    assert labels[|labels| - 1..] == [labels[|labels| - 1]];
    JoinOne(labels[|labels| - 1], '.');
  }

  /** Different numbers of labels are different texts. */
  lemma KeptTextDiffers(labels: seq<string>, a: Kept, b: Kept)
    requires SepFree(labels, '.') && (a.Keep? ==> 1 <= a.n <= |labels|) && (b.Keep? ==> 1 <= b.n <= |labels|)
    ensures TextOf(labels, a) == TextOf(labels, b) <==> a == b
  {
    if a.Keep? && b.Keep? && TextOf(labels, a) == TextOf(labels, b) {
      JoinInjective(labels[|labels| - a.n..], labels[|labels| - b.n..], '.');
    }
  }

  // The small hosts.

  predicate KnownLabel(rules: set<string>, part: string) {
    part == "" || exists rule | rule in rules :: part in RuleLabels(rule) || part == RightLabel(rule)
  }

  /** Only the last labels matter, and of a label whether the rules name it. */
  function Shrunk(rules: set<string>, x: string, n: nat, labels: seq<string>): seq<string> {
    var tail := if |labels| > n then labels[|labels| - n..] else labels;
    seq(|tail|, i requires 0 <= i < |tail| => if KnownLabel(rules, tail[i]) then tail[i] else x)
  }

  /** At most `n` labels, each empty, of some rule, or `x`. */
  predicate SmallHost(rules: set<string>, x: string, n: nat, host: string) {
    |Split(host, '.')| <= n && forall part | part in Split(host, '.') :: part == x || KnownLabel(rules, part)
  }

  /** `x` is a label no rule names, and no rule has more than `n`. */
  ghost predicate CoversRules(rules: set<string>, x: string, n: nat) {
    && !KnownLabel(rules, x) && '.' !in x && n >= 1
    && forall rule | rule in rules :: |RuleLabels(rule)| <= n
  }

  lemma ShrunkAt(rules: set<string>, x: string, n: nat, labels: seq<string>, k: nat)
    requires n >= 1 && labels != []
    requires 1 <= k <= |Shrunk(rules, x, n, labels)|
    ensures |Shrunk(rules, x, n, labels)| == (if |labels| > n then n else |labels|)
    ensures var old', new' := labels[|labels| - k], Shrunk(rules, x, n, labels)[|Shrunk(rules, x, n, labels)| - k];
            new' == if KnownLabel(rules, old') then old' else x
  {
    hide KnownLabel;
  }

  lemma ShrunkLabel(rules: set<string>, x: string, n: nat, labels: seq<string>, rule: string, j: nat)
    requires CoversRules(rules, x, n) && rule in rules && labels != []
    requires j < |RuleLabels(rule)| <= |labels|
    ensures |RuleLabels(rule)| <= |Shrunk(rules, x, n, labels)|
    ensures var small, size := Shrunk(rules, x, n, labels), |RuleLabels(rule)|;
            RuleLabels(rule)[j] == labels[|labels| - size + j] <==> RuleLabels(rule)[j] == small[|small| - size + j]
  {
    hide RuleLabels, RightLabel, Shrunk;
    var size := |RuleLabels(rule)|;
    ShrunkSize(rules, x, n, labels);
    ShrunkAt(rules, x, n, labels, size - j);
    assert RuleLabels(rule)[j] in RuleLabels(rule);
    assert KnownLabel(rules, RuleLabels(rule)[j]);
  }

  lemma ShrunkSize(rules: set<string>, x: string, n: nat, labels: seq<string>)
    ensures |Shrunk(rules, x, n, labels)| == (if |labels| > n then n else |labels|)
  {}

  lemma ShrunkMatches(stars: Stars, rules: set<string>, x: string, n: nat, labels: seq<string>, rule: string)
    requires CoversRules(rules, x, n) && rule in rules && labels != []
    ensures Matches(stars, rule, Shrunk(rules, x, n, labels)) <==> Matches(stars, rule, labels)
  {
    ShrunkSize(rules, x, n, labels);
    hide RuleLabels, KindOf, RightLabel, Shrunk, KnownLabel, StarAt;
    if |RuleLabels(rule)| <= |labels| {
      forall j: nat | j < |RuleLabels(rule)|
        ensures RuleLabels(rule)[j] == labels[|labels| - |RuleLabels(rule)| + j]
                <==> RuleLabels(rule)[j] == Shrunk(rules, x, n, labels)[|Shrunk(rules, x, n, labels)| - |RuleLabels(rule)| + j]
      {
        ShrunkLabel(rules, x, n, labels, rule, j);
      }
    }
  }

  lemma ShrunkLast(rules: set<string>, x: string, n: nat, labels: seq<string>)
    requires CoversRules(rules, x, n) && labels != []
    ensures Shrunk(rules, x, n, labels) != []
    ensures var last, small := labels[|labels| - 1], Shrunk(rules, x, n, labels);
            && (small[|small| - 1] == "" <==> last == "")
            && (KnownTld(rules, small[|small| - 1]) <==> KnownTld(rules, last))
  {
    hide RuleLabels, RightLabel;
    ShrunkAt(rules, x, n, labels, 1);
  }

  /** A host and its shrunk form keep alike. */
  lemma ShrunkKeeps(stars: Stars, rules: set<string>, x: string, n: nat, labels: seq<string>, kept: Kept)
    requires CoversRules(rules, x, n) && labels != [] && Shrunk(rules, x, n, labels) != []
    ensures Keeps(stars, rules, Shrunk(rules, x, n, labels), kept) <==> Keeps(stars, rules, labels, kept)
  {
    hide RuleLabels, RightLabel, KindOf, Matches, Shrunk, KnownTld;
    var small := Shrunk(rules, x, n, labels);
    forall rule | rule in rules ensures Matches(stars, rule, small) <==> Matches(stars, rule, labels) {
      ShrunkMatches(stars, rules, x, n, labels, rule);
    }
    ShrunkLast(rules, x, n, labels);
    forall exceptional, rule
      ensures Longest(stars, rules, small, exceptional, rule) <==> Longest(stars, rules, labels, exceptional, rule)
    {
    }
    forall exceptional ensures SomeMatch(stars, rules, small, exceptional) <==> SomeMatch(stars, rules, labels, exceptional) {}
    forall k: nat ensures ExceptionKeeps(small, k) == ExceptionKeeps(labels, k) {}
  }

  lemma ShrunkIsSmall(rules: set<string>, x: string, n: nat, host: string) returns (small: string)
    requires CoversRules(rules, x, n)
    ensures SmallHost(rules, x, n, small) && Split(small, '.') == Shrunk(rules, x, n, Split(host, '.'))
  {
    hide Split, Join, KnownLabel;
    var labels := Shrunk(rules, x, n, Split(host, '.'));
    ShrunkFree(rules, x, n, Split(host, '.'));
    small := Join(labels, '.');
    SplitJoin(labels, '.');
  }

  lemma ShrunkFree(rules: set<string>, x: string, n: nat, labels: seq<string>)
    requires '.' !in x && n >= 1 && labels != [] && SepFree(labels, '.')
    ensures Shrunk(rules, x, n, labels) != [] && SepFree(Shrunk(rules, x, n, labels), '.')
  {
    hide KnownLabel;
  }

  /** The lookup answers as published on this host. */
  ghost predicate AsPublished(list: SuffixList, rules: set<string>, host: string) {
    forall suffix :: IsPublicSuffix(Anywhere, rules, host, suffix) <==> suffix == PublicSuffixOf(list, host)
  }

  lemma AsPublishedIsKept(list: SuffixList, rules: set<string>, host: string, a: Kept, b: Kept)
    requires BuiltFrom(list, rules)
    requires Keeps(Anywhere, rules, Split(host, '.'), a) && Keeps(Leading, rules, Split(host, '.'), b)
    ensures AsPublished(list, rules, host) <==> a == b
  {
    hide Split, Keeps, IsPublicSuffix, PublicSuffixOf, BuiltFrom, TextOf;
    var labels := Split(host, '.');
    KeptIsSuffix(Leading, rules, host, b, PublicSuffixOf(list, host));
    LookupHonoursLeadingStars(list, rules, host, PublicSuffixOf(list, host));
    KeptIsSuffix(Anywhere, rules, host, a, None);
    forall suffix ensures IsPublicSuffix(Anywhere, rules, host, suffix) <==> suffix == TextOf(labels, a) {
      KeptIsSuffix(Anywhere, rules, host, a, suffix);
    }
    assert IsPublicSuffix(Anywhere, rules, host, TextOf(labels, a));
    KeptTextDiffers(labels, a, b);
  }

  function LongestPart(parts: seq<string>): (n: nat)
    ensures forall part | part in parts :: |part| <= n
  {
    if parts == [] then 0 else
      var rest := LongestPart(parts[1..]);
      if |parts[0]| > rest then |parts[0]| else rest
  }

  lemma {:induction false} Bounds(rules: set<string>) returns (m: nat, n: nat)
    ensures n >= 1 && forall rule | rule in rules :: |RuleLabels(rule)| <= n
    ensures forall rule | rule in rules :: |RightLabel(rule)| <= m && forall part | part in RuleLabels(rule) :: |part| <= m
  {
    hide RuleLabels, RightLabel;
    m, n := 0, 1;
    if rules != {} {
      var rule :| rule in rules;
      m, n := Bounds(rules - {rule});
      var parts := RuleLabels(rule) + [RightLabel(rule)];
      var longest := LongestPart(parts);
      assert RightLabel(rule) in parts && forall part | part in RuleLabels(rule) :: part in parts;
      if longest > m { m := longest; }
      if |RuleLabels(rule)| > n { n := |RuleLabels(rule)|; }
      assert forall other | other in rules :: other == rule || other in rules - {rule};
    }
  }

  /** Every list is covered: a label longer than all of its labels is none of them. */
  lemma SomeCover(rules: set<string>) returns (x: string, n: nat)
    ensures CoversRules(rules, x, n)
  {
    hide RuleLabels, RightLabel;
    var m: nat;
    m, n := Bounds(rules);
    x := seq(m + 1, _ => 'x');
  }

  /** For any list, exceptions and stars anywhere included: the lookup is the published
      algorithm on every host, exactly when it is on the hosts of no more labels than
      the longest rule has, each empty, of some rule, or one label more. */
  lemma FinitelyManyHostsDecide(list: SuffixList, rules: set<string>, x: string, n: nat)
    requires BuiltFrom(list, rules) && CoversRules(rules, x, n)
    ensures (forall host :: AsPublished(list, rules, host))
            <==> forall host | SmallHost(rules, x, n, host) :: AsPublished(list, rules, host)
  {
    hide Split, Keeps, AsPublished, BuiltFrom, SmallHost, CoversRules, Shrunk;
    if forall host | SmallHost(rules, x, n, host) :: AsPublished(list, rules, host) {
      forall host ensures AsPublished(list, rules, host) {
        var small := ShrunkIsSmall(rules, x, n, host);
        var a := SomeKept(Anywhere, rules, Split(host, '.'));
        var b := SomeKept(Leading, rules, Split(host, '.'));
        ShrunkKeeps(Anywhere, rules, x, n, Split(host, '.'), a);
        ShrunkKeeps(Leading, rules, x, n, Split(host, '.'), b);
        AsPublishedIsKept(list, rules, small, a, b);
        AsPublishedIsKept(list, rules, host, a, b);
      }
    }
  }

  // --- the bucket -----------------------------------------------------------------

  lemma {:induction false} LowerIdempotent(s: string)
    ensures Lower(Lower(s)) == Lower(s)
  {
    assert forall i | 0 <= i < |s| :: LowerChar(LowerChar(s[i])) == LowerChar(s[i]);
  }

  predicate NoOuterDots(s: string) { s == "" || (s[0] != '.' && s[|s| - 1] != '.') }

  lemma {:induction false} RStripDotsPrefix(s: string)
    ensures RStripDots(s) <= s
    ensures RStripDots(s) == "" || RStripDots(s)[|RStripDots(s)| - 1] != '.'
  {
    if s != "" && s[|s| - 1] == '.' { RStripDotsPrefix(s[..|s| - 1]); }
  }

  lemma {:induction false} LStripDotsHead(s: string)
    ensures LStripDots(s) == "" || LStripDots(s)[0] != '.'
    ensures |LStripDots(s)| <= |s|
    ensures s != "" && s[0] == '.' ==> |LStripDots(s)| < |s|
  {
    if s != "" && s[0] == '.' { LStripDotsHead(s[1..]); }
  }

  /** A normalised host is lower-case with no outer dot, and normalising a host
      does nothing exactly when it is so already. */
  lemma NormaliseForm(host: string)
    ensures var h := Normalise(host); NoOuterDots(h) && Lower(h) == h && |h| <= |host|
    ensures host != "" && host[0] == '.' ==> |Normalise(host)| < |host|
    ensures NoOuterDots(host) && Lower(host) == host ==> Normalise(host) == host
  {
    hide Lower;
    LStripDotsHead(host);
    RStripDotsPrefix(LStripDots(host));
    LowerIdempotent(RStripDots(LStripDots(host)));
    LowerKeepsForm(RStripDots(LStripDots(host)));
  }

  lemma LowerKeepsForm(s: string)
    ensures |Lower(s)| == |s| && (NoOuterDots(s) ==> NoOuterDots(Lower(s)))
  {}

  lemma TailStep(labels: seq<string>)
    requires |labels| > 1
    ensures Join(labels, '.') == labels[0] + "." + Join(labels[1..], '.')
  {}

  /** The tail of a lower-case host is lower-case, and no longer. */
  lemma {:induction false} TailLower(labels: seq<string>, i: nat)
    requires i < |labels| && Lower(Join(labels, '.')) == Join(labels, '.')
    ensures Lower(Suffix(labels, i)) == Suffix(labels, i)
    ensures |Suffix(labels, i)| <= |Join(labels, '.')|
  {
    hide Join, Lower;
    if i == 0 {
      assert labels[0..] == labels;
    } else {
      TailStep(labels);
      var whole, rest := Join(labels, '.'), Join(labels[1..], '.');
      assert forall j | 0 <= j < |rest| :: rest[j] == whole[|labels[0]| + 1 + j];
      assert labels[1..][i - 1..] == labels[i..];
      TailLower(labels[1..], i - 1);
    }
  }

  /** It keeps the host's last character. */
  lemma {:induction false} TailLast(labels: seq<string>, i: nat)
    requires i < |labels| && Join(labels, '.') != ""
    ensures var t, whole := Suffix(labels, i), Join(labels, '.');
            t == "" || t[|t| - 1] == whole[|whole| - 1]
  {
    hide Join, Suffix;
    WholeSuffix(labels);
    if i > 0 {
      TailStep(labels);
      TailOfTail(labels, 1, i - 1);
      if Join(labels[1..], '.') != "" {
        TailLast(labels[1..], i - 1);
      } else {
        EmptyJoin(labels[1..]);
        WholeSuffix(labels[1..]);
      }
    }
  }

  lemma WholeSuffix(labels: seq<string>)
    ensures Suffix(labels, 0) == Join(labels, '.')
  {
    assert labels[0..] == labels;
  }

  /** It starts as its first label does, or with a dot if that is empty. */
  lemma TailFirst(labels: seq<string>, i: nat)
    requires i < |labels|
    ensures labels[i] != "" ==> Suffix(labels, i) != "" && Suffix(labels, i)[0] == labels[i][0]
    ensures labels[i] == "" && i + 1 < |labels| ==> Suffix(labels, i) != "" && Suffix(labels, i)[0] == '.'
  {
    if i + 1 < |labels| { TailStep(labels[i..]); }
  }

  lemma EmptyJoin(labels: seq<string>)
    requires labels != [] && Join(labels, '.') == ""
    ensures labels == [""]
  {
    assert |labels| == 1;
  }

  lemma TailOfTail(labels: seq<string>, m: nat, j: nat)
    requires m + j <= |labels|
    ensures Suffix(labels[m..], j) == Suffix(labels, m + j)
  {
    assert labels[m..][j..] == labels[m + j..];
  }

  /** Dropping labels in front of the match does not move the match. */
  lemma ShortenedException(list: SuffixList, labels: seq<string>, m: nat)
    requires m < |labels|
    requires var found := FindException(list, labels, 0); found.Some? ==> m <= found.value
    ensures var found := FindException(list, labels, 0);
            FindException(list, labels[m..], 0) == if found.Some? then Some(found.value - m) else None
  {
    hide FindException, Join;
    var found, e := FindException(list, labels, 0), FindException(list, labels[m..], 0);
    if e.Some? { TailOfTail(labels, m, e.value); }
    if found.Some? { TailOfTail(labels, m, found.value - m); }
  }

  lemma ShortenedRuleAt(list: SuffixList, labels: seq<string>, m: nat, j: nat)
    requires m + j < |labels|
    ensures RuleAt(list, labels[m..], j) == RuleAt(list, labels, m + j)
  {
    TailOfTail(labels, m, j);
    TailOfTail(labels, m, j + 1);
  }

  lemma ShortenedRule(list: SuffixList, labels: seq<string>, m: nat)
    requires m < |labels|
    requires var found := FindRule(list, labels, 0); found.Some? ==> m <= found.value
    ensures var found := FindRule(list, labels, 0);
            FindRule(list, labels[m..], 0) == if found.Some? then Some(found.value - m) else None
  {
    hide RuleAt, FindRule, Suffix;
    var found, e := FindRule(list, labels, 0), FindRule(list, labels[m..], 0);
    if e.Some? { ShortenedRuleAt(list, labels, m, e.value); }
    if found.Some? { ShortenedRuleAt(list, labels, m, found.value - m); }
  }

  /** Where the known suffix of `labels` starts. */
  function SuffixStart(list: SuffixList, labels: seq<string>): nat
    requires labels != []
  {
    match FindException(list, labels, 0)
    case Some(e) => e + 1
    case None => match FindRule(list, labels, 0)
      case Some(r) => r
      case None => |labels| - 1
  }

  lemma KnownSuffix(list: SuffixList, h: string)
    requires PublicSuffixOf(list, h).Some?
    ensures var labels := Split(h, '.');
            var start := SuffixStart(list, labels);
            && start < |labels|
            && PublicSuffixOf(list, h).value == Suffix(labels, start)
            && Count(PublicSuffixOf(list, h).value, '.') + 1 == |labels| - start
  {
    hide Join, Split, Count, FindException, FindRule, Suffix;
    var labels := Split(h, '.');
    var start := SuffixStart(list, labels);
    SuffixEnd(labels);
    LastSuffix(labels);
    SuffixLabels(labels, start);
    SplitCount(Suffix(labels, start), '.');
  }

  lemma LastSuffix(labels: seq<string>)
    requires labels != []
    ensures Suffix(labels, |labels| - 1) == labels[|labels| - 1]
  {
    assert labels[|labels| - 1..] == [labels[|labels| - 1]];
  }

  lemma SuffixLabels(labels: seq<string>, i: nat)
    requires SepFree(labels, '.') && i < |labels|
    ensures Split(Suffix(labels, i), '.') == labels[i..]
  {
    TailFree(labels, i);
    SplitJoin(labels[i..], '.');
  }

  /** Cutting a known host to its bucket, one label left of the suffix, loses
      nothing the lookup sees. */
  lemma BucketSameSuffix(list: SuffixList, h: string)
    requires PublicSuffixOf(list, h).Some? && 0 < SuffixStart(list, Split(h, '.'))
    ensures var labels := Split(h, '.');
            var m := SuffixStart(list, labels) - 1;
            m < |labels| && PublicSuffixOf(list, Suffix(labels, m)) == PublicSuffixOf(list, h)
  {
    hide Split, Join, Count, FindException, FindRule, Suffix;
    KnownSuffix(list, h);
    var labels := Split(h, '.');
    var start := SuffixStart(list, labels);
    var m := start - 1;
    SuffixLabels(labels, m);
    LastSuffix(labels);
    LastSuffix(labels[m..]);
    ShortenedException(list, labels, m);
    match FindException(list, labels, 0) {
      case Some(e) =>
        TailOfTail(labels, m, e - m + 1);
      case None =>
        ShortenedRule(list, labels, m);
        match FindRule(list, labels, 0) {
          case Some(r) => TailOfTail(labels, m, r - m);
          case None =>
        }
    }
  }

  /** How many labels the bucket of a host with this suffix has. */
  function BucketSize(suffix: string): nat { Count(suffix, '.') + 2 }

  /** A bucket that would start with a dot: the label left of the suffix of the
      normalised host is empty. */
  predicate EmptyRegistrableLabel(list: SuffixList, host: string) {
    var h := Normalise(host);
    var labels := Split(h, '.');
    var suffix := PublicSuffixOf(list, h);
    && suffix.Some? && suffix != Some(h)
    && BucketSize(suffix.value) <= |labels|
    && labels[|labels| - BucketSize(suffix.value)] == ""
  }

  /** The bucket is a tail of the normalised host, exactly one label longer than
      the suffix, unless the host is itself the suffix or nothing matched. */
  lemma BucketIsTail(list: SuffixList, host: string)
    ensures var h := Normalise(host);
            var labels := Split(h, '.');
            var suffix := PublicSuffixOf(list, h);
            && Etld1(list, host).1 == suffix.Some?
            && (suffix == None || suffix == Some(h) ==> Etld1(list, host).0 == h)
            && (suffix.Some? && suffix != Some(h) ==>
                  && BucketSize(suffix.value) <= |labels|
                  && SuffixStart(list, labels) == |labels| - BucketSize(suffix.value) + 1
                  && Etld1(list, host).0 == Suffix(labels, |labels| - BucketSize(suffix.value))
                  && Split(Etld1(list, host).0, '.') == labels[|labels| - BucketSize(suffix.value)..])
  {
    hide Split, Join, Count, Normalise, PublicSuffixOf, SuffixStart;
    var h := Normalise(host);
    var labels := Split(h, '.');
    var found := PublicSuffixOf(list, h);
    if found.Some? && found.value != h {
      KnownSuffix(list, h);
      JoinSplit(h, '.');
      assert labels[0..] == labels;
      var m := |labels| - BucketSize(found.value);
      SuffixLabels(labels, m);
    }
  }

  lemma BucketNoLonger(list: SuffixList, host: string)
    ensures |Etld1(list, host).0| <= |Normalise(host)|
  {
    hide Split, Join, Lower, Count, Normalise, PublicSuffixOf, SuffixStart, Suffix, Etld1;
    var h := Normalise(host);
    BucketIsTail(list, host);
    NormaliseForm(host);
    JoinSplit(h, '.');
    var suffix := PublicSuffixOf(list, h);
    if suffix.Some? && suffix != Some(h) {
      TailLower(Split(h, '.'), |Split(h, '.')| - BucketSize(suffix.value));
    }
  }

  lemma BucketForm(list: SuffixList, host: string)
    requires var h := Normalise(host); PublicSuffixOf(list, h).Some? && PublicSuffixOf(list, h) != Some(h)
    ensures var h := Normalise(host);
            var labels := Split(h, '.');
            var m := SuffixStart(list, labels) - 1;
            && 0 <= m < |labels| - 1
            && Etld1(list, host).0 == Suffix(labels, m)
            && Split(Suffix(labels, m), '.') == labels[m..]
            && |labels| - m == BucketSize(PublicSuffixOf(list, h).value)
            && (EmptyRegistrableLabel(list, host) <==> labels[m] == "")
            && NoOuterDots(h) && h != "" && Lower(h) == h
  {
    hide Split, Join, Lower, Count, Normalise, PublicSuffixOf, SuffixStart, Suffix, Etld1;
    NormaliseForm(host);
    BucketIsTail(list, host);
    SplitWhole("", '.');
  }

  lemma DottedBucketMoves(list: SuffixList, host: string)
    requires EmptyRegistrableLabel(list, host)
    ensures |Etld1(list, Etld1(list, host).0).0| < |Etld1(list, host).0|
  {
    hide Split, Join, Lower, Count, Normalise, PublicSuffixOf, SuffixStart, Suffix, Etld1;
    BucketForm(list, host);
    var labels := Split(Normalise(host), '.');
    var m := SuffixStart(list, labels) - 1;
    TailFirst(labels, m);
    NormaliseForm(Suffix(labels, m));
    BucketNoLonger(list, Suffix(labels, m));
  }

  /** A tail of a normalised host that does not start with a dot is already
      normalised. */
  lemma TailNormal(h: string, m: nat)
    requires NoOuterDots(h) && Lower(h) == h && h != ""
    requires m < |Split(h, '.')| && Split(h, '.')[m] != ""
    ensures Normalise(Suffix(Split(h, '.'), m)) == Suffix(Split(h, '.'), m)
  {
    hide Split, Join, Lower, Normalise, Suffix;
    var labels := Split(h, '.');
    JoinSplit(h, '.');
    TailLower(labels, m);
    TailLast(labels, m);
    TailFirst(labels, m);
    assert labels[m] in labels;
    assert '.' !in labels[m] && labels[m][0] in labels[m];
    NormaliseForm(Suffix(labels, m));
  }

  lemma PlainBucketNormal(list: SuffixList, host: string)
    requires var h := Normalise(host); PublicSuffixOf(list, h).Some? && PublicSuffixOf(list, h) != Some(h)
    requires !EmptyRegistrableLabel(list, host)
    ensures Normalise(Etld1(list, host).0) == Etld1(list, host).0
  {
    hide Split, Join, Lower, Count, Normalise, PublicSuffixOf, SuffixStart, Suffix, Etld1, EmptyRegistrableLabel;
    BucketForm(list, host);
    TailNormal(Normalise(host), SuffixStart(list, Split(Normalise(host), '.')) - 1);
  }

  lemma PlainBucketStays(list: SuffixList, host: string)
    requires var h := Normalise(host); PublicSuffixOf(list, h).Some? && PublicSuffixOf(list, h) != Some(h)
    requires !EmptyRegistrableLabel(list, host)
    ensures Etld1(list, Etld1(list, host).0).0 == Etld1(list, host).0
  {
    hide Split, Join, Lower, Count, Normalise, PublicSuffixOf, SuffixStart, Suffix, Etld1, EmptyRegistrableLabel;
    var h := Normalise(host);
    var labels := Split(h, '.');
    var m := SuffixStart(list, labels) - 1;
    BucketForm(list, host);
    PlainBucketNormal(list, host);
    BucketSameSuffix(list, h);
    FullTail(list, Suffix(labels, m), labels[m..]);
  }

  /** Bucketing a bucket changes nothing, exactly when the label left of the
      suffix is not empty. */
  lemma BucketIdempotent(list: SuffixList, host: string)
    ensures Etld1(list, Etld1(list, host).0).0 == Etld1(list, host).0
            <==> !EmptyRegistrableLabel(list, host)
  {
    hide Split, Join, Lower, Count, Normalise, PublicSuffixOf;
    var h := Normalise(host);
    var suffix := PublicSuffixOf(list, h);
    NormaliseForm(host);
    if suffix == None || suffix == Some(h) {
      NormaliseForm(h);
    } else if EmptyRegistrableLabel(list, host) {
      DottedBucketMoves(list, host);
    } else {
      PlainBucketStays(list, host);
    }
  }

  /** A host of exactly its bucket's labels is its own bucket. */
  lemma FullTail(list: SuffixList, b: string, labels: seq<string>)
    requires Normalise(b) == b && Split(b, '.') == labels
    requires PublicSuffixOf(list, b).Some? && |labels| == BucketSize(PublicSuffixOf(list, b).value)
    ensures Etld1(list, b).0 == b
  {
    hide Split, Join, Count, Normalise, PublicSuffixOf;
    JoinSplit(b, '.');
  }

  /** Lower-casing leaves the dots, and so each label's length, alone. */
  lemma LowerDots(s: string, i: nat)
    requires i == IndexOf(s, '.')
    ensures IndexOf(Lower(s), '.') == i
    ensures Lower(s)[i + 1..] == Lower(s[i + 1..])
  {
    hide Split, IndexOf;
    var low := Lower(s);
    assert low[i] == '.';
    assert '.' !in low[..i] by { assert forall j | 0 <= j < i :: s[..i][j] == s[j]; }
    assert low == low[..i] + "." + low[i + 1..];
    FirstSep(low[..i], '.', low[i + 1..]);
  }

  predicate SameLengths(a: seq<string>, b: seq<string>) {
    |a| == |b| && forall i | 0 <= i < |a| :: |a[i]| == |b[i]|
  }

  lemma {:induction false} LowerSplit(s: string)
    ensures SameLengths(Split(Lower(s), '.'), Split(s, '.'))
    decreases |s|
  {
    hide Split, IndexOf, Lower;
    var i := IndexOf(s, '.');
    if i < 0 {
      assert forall j | 0 <= j < |s| :: Lower(s)[j] == '.' <==> s[j] == '.';
      SplitWhole(s, '.');
      SplitWhole(Lower(s), '.');
    } else {
      LowerDots(s, i);
      SplitStep(s, '.', i);
      SplitStep(Lower(s), '.', i);
      LowerSplit(s[i + 1..]);
    }
  }

  /** For the hosts the source promises to be called with, the names its own
      validation accepts, bucketing is idempotent. */
  lemma ValidHostBucketIdempotent(list: SuffixList, host: string)
    requires ServerName.ValidDnsName(host)
    ensures Etld1(list, Etld1(list, host).0).0 == Etld1(list, host).0
  {
    hide Split, Join, Lower, Count, PublicSuffixOf, Etld1;
    ServerName.DnsChars(host);
    var parts := Split(host, '.');
    forall i | 0 <= i < |parts| ensures parts[i] != "" {
      assert parts[i] in parts;
      ServerName.BodyChars(parts[i]);
    }
    assert LStripDots(host) == host;
    assert RStripDots(host) == host by { LastNotDot(host); }
    LowerSplit(host);
    BucketIdempotent(list, host);
  }

  lemma LastNotDot(host: string)
    requires ServerName.AlnumEnds(host)
    ensures host[|host| - 1] != '.'
  {}

  /** The failing family is not empty: two dots in a row. */
  lemma EmptyLabelWitness(list: SuffixList)
    requires list == SuffixList(None, {}, {}, {}, {"x"})
    ensures EmptyRegistrableLabel(list, "a..x")
  {
    hide Split, Join, Lower, RStripDots, LStripDots, FindException, FindRule, Count;
    NormalWitness();
    EmptyLabelParts();
    KnownSuffixOfWitness(list, Split("a..x", '.'));
  }

  lemma NormalWitness()
    ensures Normalise("a..x") == "a..x"
  {
    assert Lower("a..x") == "a..x";
  }

  lemma EmptyLabelParts()
    ensures Split("a..x", '.') == ["a", "", "x"]
  {
    assert Join(["", "x"], '.') == ".x" by { JoinCons("", ["x"], '.'); }
    assert Join(["a", "", "x"], '.') == "a..x" by {
      JoinCons("a", ["", "x"], '.');
      assert ["a"] + ["", "x"] == ["a", "", "x"];
    }
    SplitJoin(["a", "", "x"], '.');
  }

  lemma KnownSuffixOfWitness(list: SuffixList, labels: seq<string>)
    requires list == SuffixList(None, {}, {}, {}, {"x"}) && labels == ["a", "", "x"]
    ensures FindException(list, labels, 0) == None && FindRule(list, labels, 0) == None
    ensures Count("x", '.') == 0
  {
    CountAbsent("x", '.');
  }

  // --- loading ------------------------------------------------------------------

  predicate Ascii(s: string) { forall i | 0 <= i < |s| :: s[i] as int < 128 }

  /** `_encode_label`; `idna` is the library's encoder for the rest. */
  function EncodeLabel(idna: string -> string, part: string): string {
    if Ascii(part) then Lower(part) else Lower(idna(part))
  }

  function EncodeRule(idna: string -> string, rule: string): string {
    var parts := Split(rule, '.');
    Join(seq(|parts|, i requires 0 <= i < |parts| => EncodeLabel(idna, parts[i])), '.')
  }

  /** Up to the first white space: `line.split()[0]`. */
  function FirstWord(line: string): string {
    if line == "" || IsSpace(line[0]) then "" else [line[0]] + FirstWord(line[1..])
  }

  predicate IsRuleLine(raw: string) {
    Strip(raw) != "" && !StartsWith(Strip(raw), "//")
  }

  /** The rules a list's text publishes, comments and blank lines apart. */
  function RulesOf(idna: string -> string, lines: seq<string>): set<string> {
    set i | 0 <= i < |lines| && IsRuleLine(lines[i]) :: EncodeRule(idna, FirstWord(Strip(lines[i])))
  }

  class PublicSuffixList {
    const version: Option<int>
    var normal: set<string>
    var wildcard: set<string>
    var exception: set<string>
    var tlds: set<string>

    function Value(): SuffixList
      reads this
    {
      SuffixList(version, normal, wildcard, exception, tlds)
    }

    /** The sets of a freshly parsed list hold exactly the rules of its text. */
    constructor (idna: string -> string, lines: seq<string>, version: Option<int>)
      ensures BuiltFrom(Value(), RulesOf(idna, lines)) && this.version == version
    {
      this.version := version;
      normal, wildcard, exception, tlds := {}, {}, {}, {};
      new;
      Load(idna, lines);
    }

    method Load(idna: string -> string, lines: seq<string>)
      requires normal == wildcard == exception == tlds == {}
      modifies this
      ensures BuiltFrom(Value(), RulesOf(idna, lines))
    {
      hide RightLabel, EncodeRule, FirstWord, Strip, BuiltFrom, RulesOf;
      ghost var rules := RulesOf(idna, []);
      NoRules(idna, Value());
      for n := 0 to |lines|
        invariant rules == RulesOf(idna, lines[..n])
        invariant BuiltFrom(Value(), rules)
      {
        var line := Strip(lines[n]);
        ghost var before := Value();
        assert lines[..n + 1] == lines[..n] + [lines[n]];
        if line == "" || StartsWith(line, "//") {
          RulesSkip(idna, lines[..n], lines[n]);
          continue;
        }
        var rule := EncodeRule(idna, FirstWord(line));
        RulesAdd(idna, lines[..n], lines[n]);
        BuiltAdd(before, rules, rule);
        rules := rules + {rule};
        if StartsWith(rule, "!") {
          exception := exception + {rule[1..]};
        } else if StartsWith(rule, "*.") {
          wildcard := wildcard + {rule[2..]};
        } else {
          normal := normal + {rule};
        }
        tlds := tlds + {RightLabel(rule)};
        assert Value() == Added(before, rule);
      }
      assert lines[..|lines|] == lines;
    }

    function PublicSuffix(host: string): Option<string>
      reads this
    {
      PublicSuffixOf(Value(), host)
    }
  }

  lemma NoRules(idna: string -> string, list: SuffixList)
    requires list.normal == list.wildcard == list.exception == list.tlds == {}
    ensures RulesOf(idna, []) == {} && BuiltFrom(list, {})
  {}

  lemma RulesAdd(idna: string -> string, lines: seq<string>, raw: string)
    requires IsRuleLine(raw)
    ensures RulesOf(idna, lines + [raw]) == RulesOf(idna, lines) + {EncodeRule(idna, FirstWord(Strip(raw)))}
  {
    var all := lines + [raw];
    assert all[|lines|] == raw;
    assert forall i | 0 <= i < |lines| :: all[i] == lines[i];
  }

  lemma RulesSkip(idna: string -> string, lines: seq<string>, raw: string)
    requires !IsRuleLine(raw)
    ensures RulesOf(idna, lines + [raw]) == RulesOf(idna, lines)
  {
    var all := lines + [raw];
    assert forall i | 0 <= i < |lines| :: all[i] == lines[i];
  }

  /** Adding a rule to the one set its kind belongs to keeps the sets exact. */
  function Added(list: SuffixList, rule: string): SuffixList {
    list.(normal := list.normal + (if KindOf(rule) == Normal then {rule} else {}),
          wildcard := list.wildcard + (if KindOf(rule) == Wildcard then {rule[2..]} else {}),
          exception := list.exception + (if KindOf(rule) == Exception then {rule[1..]} else {}),
          tlds := list.tlds + {RightLabel(rule)})
  }

  lemma BuiltAdd(list: SuffixList, rules: set<string>, rule: string)
    requires BuiltFrom(list, rules)
    ensures BuiltFrom(Added(list, rule), rules + {rule})
  {
    hide RightLabel;
    var all, after := rules + {rule}, Added(list, rule);
    assert after.normal == (set r | r in all && KindOf(r) == Normal);
    assert after.wildcard == (set r | r in all && KindOf(r) == Wildcard :: r[2..]);
    assert after.exception == (set r | r in all && KindOf(r) == Exception :: r[1..]);
    assert after.tlds == (set r | r in all :: RightLabel(r));
  }

  /** Holds the active list; `None` while there is none. */
  class PslHolder {
    var current: Option<SuffixList>

    constructor (initial: Option<SuffixList>)
      ensures current == initial
    {
      current := initial;
    }

    /** Swaps in a versioned list unless the one in use is as new. */
    method Adopt(candidate: SuffixList) returns (adopted: bool)
      modifies this
      ensures adopted == Adopts(old(current), candidate)
      ensures current == if adopted then Some(candidate) else old(current)
    {
      if candidate.version == None { return false; }
      var cur := if current.Some? then current.value.version else None;
      if cur.Some? && candidate.version.value <= cur.value { return false; }
      current := Some(candidate);
      return true;
    }
  }

  predicate Adopts(current: Option<SuffixList>, candidate: SuffixList) {
    && candidate.version.Some?
    && (current.Some? && current.value.version.Some? ==> current.value.version.value < candidate.version.value)
  }
}
