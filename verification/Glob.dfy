/** Policy globs: `policy._glob_to_regex`.

    A compiled regex is its list of atoms. `Accepts` gives the regex engine's
    meaning: `.` takes no newline, and `$` also holds before a final newline.
    `GlobMatches` is the glob's own meaning, by cutting the entity into pieces. */
module Glob {
  import opened Wrappers

  datatype Atom = Start | End | AnyRun | AnyOne | Literal(c: char)

  /** `Pattern.match`: `atoms` accept a prefix of what is left of `s` at `i`. */
  predicate Accepts(atoms: seq<Atom>, s: string, i: nat)
    requires i <= |s|
    decreases |atoms|
  {
    if atoms == [] then true
    else match atoms[0]
      case Start => i == 0 && Accepts(atoms[1..], s, i)
      case End => (i == |s| || (i == |s| - 1 && s[i] == '\n')) && Accepts(atoms[1..], s, i)
      case Literal(c) => i < |s| && s[i] == c && Accepts(atoms[1..], s, i + 1)
      case AnyOne => i < |s| && s[i] != '\n' && Accepts(atoms[1..], s, i + 1)
      case AnyRun => exists j: nat | i <= j <= |s| :: '\n' !in s[i..j] && Accepts(atoms[1..], s, j)
  }

  function AtomOf(c: char): Atom {
    if c == '*' then AnyRun else if c == '?' then AnyOne else Literal(c)
  }

  function Atoms(pattern: string): seq<Atom> {
    if pattern == "" then [] else [AtomOf(pattern[0])] + Atoms(pattern[1..])
  }

  /** One atom per pattern character, between the anchors. */
  method GlobToRegex(pattern: string) returns (out: seq<Atom>)
    ensures out == [Start] + Atoms(pattern) + [End]
  {
    out := [Start];
    for n := 0 to |pattern|
      invariant out == [Start] + Atoms(pattern[..n])
    {
      var ch := pattern[n];
      AtomsAppend(pattern[..n], ch);
      assert pattern[..n + 1] == pattern[..n] + [ch];
      if ch == '*' {
        out := out + [AnyRun];
      } else if ch == '?' {
        out := out + [AnyOne];
      } else {
        out := out + [Literal(ch)];
      }
    }
    assert pattern[..|pattern|] == pattern;
    out := out + [End];
  }

  lemma {:induction false} AtomsAppend(pattern: string, ch: char)
    ensures Atoms(pattern + [ch]) == Atoms(pattern) + [AtomOf(ch)]
  {
    if pattern == "" {
      assert pattern + [ch] == [ch];
    } else {
      assert (pattern + [ch])[1..] == pattern[1..] + [ch];
      AtomsAppend(pattern[1..], ch);
    }
  }

  // --- what a glob means --------------------------------------------------------

  function Concat(pieces: seq<string>): string {
    if pieces == [] then "" else pieces[0] + Concat(pieces[1..])
  }

  /** `*` stands for any run, `?` for one character, the rest for themselves. */
  predicate PieceFits(c: char, piece: string) {
    if c == '*' then true
    else if c == '?' then |piece| == 1
    else piece == [c]
  }

  ghost predicate Cuts(pattern: string, entity: string, pieces: seq<string>) {
    && |pieces| == |pattern| && Concat(pieces) == entity
    && forall i | 0 <= i < |pattern| :: PieceFits(pattern[i], pieces[i])
  }

  ghost predicate GlobMatches(pattern: string, entity: string) {
    exists pieces :: Cuts(pattern, entity, pieces)
  }

  function Compiled(pattern: string): seq<Atom> { [Start] + Atoms(pattern) + [End] }

  predicate RegexMatches(pattern: string, entity: string) {
    Accepts(Compiled(pattern), entity, 0)
  }

  // --- compiling keeps the meaning ------------------------------------------------

  predicate NewlineFree(s: string) { '\n' !in s }

  /** A piece that fits, a wildcard's on one line. */
  predicate LineFits(c: char, piece: string) {
    PieceFits(c, piece) && (c == '*' || c == '?' ==> NewlineFree(piece))
  }

  /** A cut whose wildcards stay on one line. */
  ghost predicate LineCuts(pattern: string, text: string, pieces: seq<string>) {
    Cuts(pattern, text, pieces) && forall i | 0 <= i < |pattern| :: LineFits(pattern[i], pieces[i])
  }

  ghost predicate LineMatches(pattern: string, text: string) { exists pieces :: LineCuts(pattern, text, pieces) }

  /** Where `$` holds: at the end, and in front of a final newline. */
  predicate Ends(s: string, e: int) { e == |s| || (0 <= e == |s| - 1 && s[e] == '\n') }

  ghost predicate MatchesFrom(pattern: string, s: string, i: nat) {
    exists e: nat | i <= e <= |s| :: Ends(s, e) && LineMatches(pattern, s[i..e])
  }

  ghost predicate AcceptsAfterPiece(c: char, rest: seq<Atom>, s: string, i: nat)
    requires i <= |s|
  {
    exists j: nat | i <= j <= |s| :: LineFits(c, s[i..j]) && Accepts(rest, s, j)
  }

  /** An atom takes a piece that fits its character. */
  lemma AtomTakesPiece(c: char, rest: seq<Atom>, s: string, i: nat)
    requires i <= |s|
    ensures Accepts([AtomOf(c)] + rest, s, i) <==> AcceptsAfterPiece(c, rest, s, i)
  {
    var atoms := [AtomOf(c)] + rest;
    assert atoms[1..] == rest;
    if Accepts(atoms, s, i) {
      if c == '*' {
        var j: nat :| i <= j <= |s| && '\n' !in s[i..j] && Accepts(rest, s, j);
        assert LineFits(c, s[i..j]);
      } else {
        assert s[i..i + 1] == [s[i]];
        assert LineFits(c, s[i..i + 1]);
      }
    }
    if AcceptsAfterPiece(c, rest, s, i) {
      var j: nat :| i <= j <= |s| && LineFits(c, s[i..j]) && Accepts(rest, s, j);
      if c != '*' { assert s[i..j][0] == s[i]; }
    }
  }

  /** The atoms of a pattern, up to the end anchor, accept exactly what can be cut
      into pieces up to an end. */
  lemma {:induction false} AtomsAccept(pattern: string, s: string, i: nat)
    requires i <= |s|
    ensures Accepts(Atoms(pattern) + [End], s, i) <==> MatchesFrom(pattern, s, i)
  {
    hide LineMatches, LineFits;
    var atoms := Atoms(pattern) + [End];
    if pattern == "" {
      assert atoms == [End] && atoms[1..] == [];
      NothingMatches(s, i);
    } else {
      var rest := Atoms(pattern[1..]) + [End];
      assert atoms == [AtomOf(pattern[0])] + rest;
      AtomTakesPiece(pattern[0], rest, s, i);
      hide Accepts;
      if AcceptsAfterPiece(pattern[0], rest, s, i) {
        var j: nat :| i <= j <= |s| && LineFits(pattern[0], s[i..j]) && Accepts(rest, s, j);
        AtomsAccept(pattern[1..], s, j);
        var e: nat :| j <= e <= |s| && Ends(s, e) && LineMatches(pattern[1..], s[j..e]);
        ConsCut(pattern, s[i..j], s[j..e]);
        assert s[i..e] == s[i..j] + s[j..e];
      }
      if MatchesFrom(pattern, s, i) {
        var e: nat :| i <= e <= |s| && Ends(s, e) && LineMatches(pattern, s[i..e]);
        var first := FirstLinePiece(pattern, s[i..e]);
        var j := i + |first|;
        assert first == s[i..e][..|first|] == s[i..j] && s[i..e][|first|..] == s[j..e];
        AtomsAccept(pattern[1..], s, j);
      }
    }
  }

  lemma NothingMatches(s: string, i: nat)
    requires i <= |s|
    ensures MatchesFrom("", s, i) <==> Ends(s, i)
  {
    if Ends(s, i) { assert LineCuts("", s[i..i], []); }
  }

  lemma ConsCut(pattern: string, first: string, rest: string)
    requires pattern != "" && LineFits(pattern[0], first) && LineMatches(pattern[1..], rest)
    ensures LineMatches(pattern, first + rest)
  {
    var pieces :| LineCuts(pattern[1..], rest, pieces);
    var all := [first] + pieces;
    assert all[1..] == pieces;
    assert forall i | 1 <= i < |pattern| :: pattern[1..][i - 1] == pattern[i];
    assert LineCuts(pattern, first + rest, all);
  }

  lemma FirstPiece(pattern: string, entity: string, pieces: seq<string>)
    requires pattern != "" && Cuts(pattern, entity, pieces)
    ensures pieces[0] <= entity && PieceFits(pattern[0], pieces[0])
    ensures Cuts(pattern[1..], entity[|pieces[0]|..], pieces[1..])
  {
    assert entity == pieces[0] + Concat(pieces[1..]);
    assert entity[|pieces[0]|..] == Concat(pieces[1..]);
    assert forall k | 0 <= k < |pattern| - 1 :: pattern[1..][k] == pattern[k + 1];
  }

  lemma FirstLinePiece(pattern: string, text: string) returns (first: string)
    requires pattern != "" && LineMatches(pattern, text)
    ensures first <= text && LineFits(pattern[0], first) && LineMatches(pattern[1..], text[|first|..])
  {
    var pieces :| LineCuts(pattern, text, pieces);
    first := pieces[0];
    FirstPiece(pattern, text, pieces);
    PieceCount(pattern, text, pieces);
    hide Cuts, PieceFits;
    assert forall k | 0 <= k < |pattern| - 1 :: pattern[1..][k] == pattern[k + 1];
    assert LineCuts(pattern[1..], text[|first|..], pieces[1..]);
  }

  lemma PieceCount(pattern: string, text: string, pieces: seq<string>)
    requires Cuts(pattern, text, pieces)
    ensures |pieces| == |pattern|
  {}

  /** On any entity the compiled regex accepts exactly what can be cut to fit the
      pattern with its wildcards kept on one line, a newline at the end of it all
      apart. */
  lemma RegexMeansExactly(pattern: string, entity: string)
    ensures RegexMatches(pattern, entity) <==>
              || LineMatches(pattern, entity)
              || (entity != "" && entity[|entity| - 1] == '\n' && LineMatches(pattern, entity[..|entity| - 1]))
  {
    hide LineMatches;
    var atoms := Compiled(pattern);
    assert atoms[1..] == Atoms(pattern) + [End];
    AtomsAccept(pattern, entity, 0);
    assert entity[0..|entity|] == entity;
    if entity != "" {
      assert entity[0..|entity| - 1] == entity[..|entity| - 1];
      assert Ends(entity, |entity| - 1) <==> entity[|entity| - 1] == '\n';
    }
  }

  lemma {:induction false} ConcatHolds(pieces: seq<string>, i: nat)
    requires i < |pieces| && NewlineFree(Concat(pieces))
    ensures NewlineFree(pieces[i])
  {
    if i > 0 { ConcatHolds(pieces[1..], i - 1); }
  }

  lemma OneLine(pattern: string, entity: string)
    requires NewlineFree(entity)
    ensures LineMatches(pattern, entity) <==> GlobMatches(pattern, entity)
  {
    forall pieces | Cuts(pattern, entity, pieces) ensures LineCuts(pattern, entity, pieces) {
      forall i | 0 <= i < |pattern| ensures NewlineFree(pieces[i]) { ConcatHolds(pieces, i); }
    }
  }

  /** On a newline-free entity the compiled regex and the glob agree. */
  lemma CompilationKeepsMeaning(pattern: string, entity: string)
    requires NewlineFree(entity)
    ensures RegexMatches(pattern, entity) <==> GlobMatches(pattern, entity)
  {
    RegexMeansExactly(pattern, entity);
    OneLine(pattern, entity);
  }

  // --- and only there ---------------------------------------------------------------

  function Marks(n: nat): (s: string)
    ensures |s| == n
  {
    if n == 0 then "" else "?" + Marks(n - 1)
  }

  lemma {:induction false} MarksAccept(n: nat, s: string, i: nat)
    requires i + n <= |s| && NewlineFree(s[i..i + n])
    requires i + n == |s| - 1 && s[i + n] == '\n'
    ensures Accepts(Atoms(Marks(n)) + [End], s, i)
  {
    var atoms := Atoms(Marks(n)) + [End];
    if n == 0 {
      assert atoms == [End] && atoms[1..] == [];
    } else {
      assert Marks(n)[1..] == Marks(n - 1);
      assert atoms[1..] == Atoms(Marks(n - 1)) + [End];
      assert s[i] == s[i..i + n][0];
      assert s[i + 1..i + n] == s[i..i + n][1..];
      MarksAccept(n - 1, s, i + 1);
    }
  }

  lemma {:induction false} MarksLength(n: nat, entity: string)
    requires GlobMatches(Marks(n), entity)
    ensures |entity| == n
  {
    var pieces :| Cuts(Marks(n), entity, pieces);
    if n > 0 {
      assert Marks(n)[1..] == Marks(n - 1);
      FirstPiece(Marks(n), entity, pieces);
      MarksLength(n - 1, entity[1..]);
    }
  }

  lemma FirstNewline(s: string) returns (m: nat)
    requires '\n' in s
    ensures m < |s| && s[m] == '\n' && NewlineFree(s[..m])
  {
    m := 0;
    while s[m] != '\n'
      invariant m < |s| && NewlineFree(s[..m]) && '\n' in s[m..]
      decreases |s| - m
    {
      assert s[..m + 1] == s[..m] + [s[m]];
      assert s[m..] == [s[m]] + s[m + 1..];
      m := m + 1;
    }
  }

  /** The two agree on every pattern exactly when the entity has no newline. */
  lemma MeaningKeptExactly(entity: string)
    ensures (forall pattern :: RegexMatches(pattern, entity) <==> GlobMatches(pattern, entity))
            <==> NewlineFree(entity)
  {
    if NewlineFree(entity) {
      forall pattern ensures RegexMatches(pattern, entity) <==> GlobMatches(pattern, entity) {
        CompilationKeepsMeaning(pattern, entity);
      }
    } else {
      var m := FirstNewline(entity);
      if m == |entity| - 1 {
        assert Compiled(Marks(m))[1..] == Atoms(Marks(m)) + [End];
        assert entity[0..m] == entity[..m];
        MarksAccept(m, entity, 0);
        assert RegexMatches(Marks(m), entity);
        if GlobMatches(Marks(m), entity) { MarksLength(m, entity); }
      } else {
        StarStops(entity, m);
        assert Cuts("*", entity, [entity]);
        assert GlobMatches("*", entity);
      }
    }
  }

  /** `.*` cannot cross a newline that is not the last character. */
  lemma StarStops(entity: string, m: nat)
    requires m < |entity| - 1 && entity[m] == '\n'
    ensures !RegexMatches("*", entity)
  {
    var atoms := Compiled("*");
    assert atoms[1..] == [AnyRun, End] && atoms[1..][1..] == [End];
    forall j: nat | m < j <= |entity| ensures '\n' in entity[0..j] {
      assert entity[0..j][m] == '\n';
    }
  }
}
