// Lines of a text, substring search, and why searching line by line finds a
// match exactly when the text contains one.
module Lines {

  datatype Option<T> = None | Some(value: T)

  predicate OccursAt(text: string, pattern: string, i: nat) {
    i + |pattern| <= |text| && text[i..i + |pattern|] == pattern
  }

  ghost predicate Contains(text: string, pattern: string) {
    exists i: nat :: OccursAt(text, pattern, i)
  }

  // strstr: the first occurrence.
  function StrStr(text: string, pattern: string): (r: Option<nat>)
    ensures r.Some? ==> OccursAt(text, pattern, r.value) && forall i: nat | i < r.value :: !OccursAt(text, pattern, i)
    ensures r.None? ==> !Contains(text, pattern)
  {
    StrStrFrom(text, pattern, 0)
  }

  function StrStrFrom(text: string, pattern: string, from: nat): (r: Option<nat>)
    requires from <= |text| + 1 && forall i: nat | i < from :: !OccursAt(text, pattern, i)
    ensures r.Some? ==> OccursAt(text, pattern, r.value) && forall i: nat | i < r.value :: !OccursAt(text, pattern, i)
    ensures r.None? ==> !Contains(text, pattern)
    decreases |text| + 1 - from
  {
    if from + |pattern| > |text| then None
    else if OccursAt(text, pattern, from) then Some(from)
    else StrStrFrom(text, pattern, from + 1)
  }

  function FirstNewline(s: string): (k: nat)
    ensures k <= |s| && (k < |s| ==> s[k] == '\n')
    ensures forall j | 0 <= j < k :: s[j] != '\n'
  {
    if s == "" || s[0] == '\n' then 0
    else
      var k := FirstNewline(s[1..]);
      assert forall j | 1 <= j < k + 1 :: s[j] == s[1..][j - 1];
      k + 1
  }

  // Every line of s, empty ones included.
  function SplitLines(s: string): (ls: seq<string>)
    ensures ls != []
  {
    var k := FirstNewline(s);
    if k == |s| then [s] else [s[..k]] + SplitLines(s[k + 1..])
  }

  function NonEmpty(ls: seq<string>): seq<string> {
    if ls == [] then []
    else if ls[0] == "" then NonEmpty(ls[1..])
    else [ls[0]] + NonEmpty(ls[1..])
  }

  // What strtok_r with delimiter "\n" yields, one after the other.
  function Tokens(s: string): seq<string> {
    NonEmpty(SplitLines(s))
  }

  lemma {:induction false} NonEmptyMembers(ls: seq<string>, line: string)
    ensures line in NonEmpty(ls) <==> line in ls && line != ""
  {
    if ls != [] {
      NonEmptyMembers(ls[1..], line);
      assert ls == [ls[0]] + ls[1..];
    }
  }

  // SplitLines undoes joining with newlines, and leaves none in a line.
  function Unsplit(ls: seq<string>): string
    requires ls != []
  {
    if |ls| == 1 then ls[0] else ls[0] + "\n" + Unsplit(ls[1..])
  }

  lemma {:induction false} SplitIsExact(s: string)
    ensures Unsplit(SplitLines(s)) == s
    ensures forall line | line in SplitLines(s) :: '\n' !in line
    decreases |s|
  {
    hide FirstNewline;
    var k := FirstNewline(s);
    if k < |s| {
      SplitIsExact(s[k + 1..]);
      var ls := SplitLines(s);
      assert ls[1..] == SplitLines(s[k + 1..]);
      assert s == s[..k] + "\n" + s[k + 1..];
      assert forall line | line in ls :: line == s[..k] || line in ls[1..];
    }
  }

  lemma SplitAt(t: string, rest: string)
    requires '\n' !in t
    ensures SplitLines(t + "\n" + rest) == [t] + SplitLines(rest)
    ensures SplitLines(t) == [t]
  {
    var s := t + "\n" + rest;
    assert forall j | 0 <= j < |t| :: s[j] == t[j] && t[j] in t;
    assert s[|t|] == '\n' && FirstNewline(s) == |t|;
    assert s[..|t|] == t && s[|t| + 1..] == rest;
    assert FirstNewline(t) == |t|;
  }

  // The tokens of a text that starts with a token, or with a newline.
  lemma TokensStart(t: string, rest: string)
    requires '\n' !in t
    ensures Tokens(t + "\n" + rest) == (if t == "" then [] else [t]) + Tokens(rest)
    ensures Tokens(t) == if t == "" then [] else [t]
  {
    hide SplitLines;
    SplitAt(t, rest);
    var ls := SplitLines(rest);
    var one := [t];
    assert ([t] + ls)[1..] == ls && one[1..] == [];
    assert NonEmpty(one) == if t == "" then [] else [t];
  }

  // ----- by lines or as a whole

  lemma OccursInPart(s: string, lo: nat, hi: nat, pattern: string, i: nat)
    requires lo <= hi <= |s|
    ensures OccursAt(s[lo..hi], pattern, i) <==> lo + i + |pattern| <= hi && OccursAt(s, pattern, lo + i)
  {
    if i + |pattern| <= hi - lo {
      var part := s[lo..hi];
      var a, b := part[i..i + |pattern|], s[lo + i..lo + i + |pattern|];
      assert forall j | 0 <= j < |a| :: a[j] == b[j];
      assert a == b;
    }
  }

  lemma NewlineInside(s: string, pattern: string, i: nat, k: nat)
    requires OccursAt(s, pattern, i) && i <= k < i + |pattern| && s[k] == '\n'
    ensures '\n' in pattern
  {
    assert pattern[k - i] == s[i..i + |pattern|][k - i] == s[k];
  }

  lemma NoNewlineInside(s: string, pattern: string, i: nat)
    requires OccursAt(s, pattern, i) && forall j | 0 <= j < |s| :: s[j] != '\n'
    ensures '\n' !in pattern
  {
    assert forall j | 0 <= j < |pattern| :: pattern[j] == s[i..i + |pattern|][j] == s[i + j];
  }

  lemma LineInRest(s: string, line: string)
    requires line in SplitLines(s)
    ensures line == s[..FirstNewline(s)] ||
            (FirstNewline(s) < |s| && line in SplitLines(s[FirstNewline(s) + 1..]))
  {
    hide SplitLines, FirstNewline;
    SplitStep(s);
  }

  lemma FirstAndRest(s: string)
    ensures var k := FirstNewline(s);
            && s[..k] in SplitLines(s)
            && (k < |s| ==> forall line | line in SplitLines(s[k + 1..]) :: line in SplitLines(s))
  {
    hide SplitLines, FirstNewline;
    var k := FirstNewline(s);
    SplitStep(s);
    if k < |s| {
      var first, rest := [s[..k]], SplitLines(s[k + 1..]);
      assert forall line :: line in first + rest <==> line in first || line in rest;
    }
  }

  lemma SplitStep(s: string)
    ensures var k := FirstNewline(s);
            SplitLines(s) == [s[..k]] + if k < |s| then SplitLines(s[k + 1..]) else []
  {
    hide FirstNewline;
    assert s[..|s|] == s;
  }

  lemma EndsInside(s: string, pattern: string, i: nat)
    requires OccursAt(s, pattern, i)
    ensures i + |pattern| <= |s|
  {
  }

  lemma {:induction false} OccursInLine(s: string, line: string, pattern: string, i: nat)
    requires line in SplitLines(s) && OccursAt(line, pattern, i)
    ensures Contains(s, pattern) && '\n' !in pattern
    decreases |s|
  {
    hide OccursAt, SplitLines;
    var k := FirstNewline(s);
    var head, rest := s[..k], if k < |s| then s[k + 1..] else "";
    LineInRest(s, line);
    if line == head {
      assert s[..|s|] == s && s[0..k] == head;
      OccursInPart(s, 0, k, pattern, i);
      NoNewlineInside(head, pattern, i);
    } else {
      OccursInLine(rest, line, pattern, i);
      var j: nat :| OccursAt(rest, pattern, j);
      assert s[k + 1..|s|] == rest;
      OccursInPart(s, k + 1, |s|, pattern, j);
    }
  }

  lemma {:induction false} OccursInSomeLine(s: string, pattern: string, i: nat) returns (line: string)
    requires OccursAt(s, pattern, i) && pattern != "" && '\n' !in pattern
    ensures line in SplitLines(s) && line != "" && Contains(line, pattern)
    decreases |s|
  {
    hide OccursAt, SplitLines;
    var k := FirstNewline(s);
    FirstAndRest(s);
    EndsInside(s, pattern, i);
    if i + |pattern| <= k {
      line := s[0..k];
      assert s[..k] == line;
      OccursInPart(s, 0, k, pattern, i);
    } else if i <= k {
      NewlineInside(s, pattern, i, k);
    } else {
      assert s[k + 1..|s|] == s[k + 1..];
      OccursInPart(s, k + 1, |s|, pattern, i - k - 1);
      line := OccursInSomeLine(s[k + 1..], pattern, i - k - 1);
    }
  }

  lemma {:induction false} NonEmptyLineHasText(s: string, line: string)
    requires line in SplitLines(s) && line != ""
    ensures exists j | 0 <= j < |s| :: s[j] != '\n'
    decreases |s|
  {
    var k := FirstNewline(s);
    if k > 0 {
      assert s[0] != '\n';
    } else {
      var rest := s[k + 1..];
      NonEmptyLineHasText(rest, line);
      var j :| 0 <= j < |rest| && rest[j] != '\n';
      assert s[k + 1 + j] != '\n';
    }
  }

  lemma {:induction false} TextMakesNonEmptyLine(s: string, j: nat) returns (line: string)
    requires j < |s| && s[j] != '\n'
    ensures line in SplitLines(s) && line != ""
    decreases |s|
  {
    var k := FirstNewline(s);
    if k > 0 {
      line := s[..k];
      assert s[..|s|] == s && line == SplitLines(s)[0];
    } else {
      line := TextMakesNonEmptyLine(s[k + 1..], j - k - 1);
    }
  }

  // Some line matches exactly when the whole text contains the pattern, the
  // pattern has no newline in it and, should it be empty, some line is not.
  lemma LineSearchAgrees(s: string, pattern: string)
    ensures (exists line :: line in Tokens(s) && Contains(line, pattern)) <==>
            (&& Contains(s, pattern) && '\n' !in pattern
             && (pattern == "" ==> exists j | 0 <= j < |s| :: s[j] != '\n'))
  {
    if exists line :: line in Tokens(s) && Contains(line, pattern) {
      var line :| line in Tokens(s) && Contains(line, pattern);
      NonEmptyMembers(SplitLines(s), line);
      var i: nat :| OccursAt(line, pattern, i);
      OccursInLine(s, line, pattern, i);
      NonEmptyLineHasText(s, line);
    }
    if Contains(s, pattern) && '\n' !in pattern && (pattern == "" ==> exists j | 0 <= j < |s| :: s[j] != '\n') {
      if pattern == "" {
        var j :| 0 <= j < |s| && s[j] != '\n';
        var line := TextMakesNonEmptyLine(s, j);
        NonEmptyMembers(SplitLines(s), line);
        assert OccursAt(line, pattern, 0);
      } else {
        var i: nat :| OccursAt(s, pattern, i);
        var line := OccursInSomeLine(s, pattern, i);
        NonEmptyMembers(SplitLines(s), line);
      }
    }
  }

  // ----- the matches of a file and how they are printed

  datatype Match = Match(number: nat, line: string, offset: nat)

  // The matching lines of ls, the first of which has number `from`.
  function Matches(ls: seq<string>, pattern: string, from: nat): seq<Match> {
    if ls == [] then []
    else
      var r := StrStr(ls[0], pattern);
      (if r.Some? then [Match(from, ls[0], r.value)] else []) + Matches(ls[1..], pattern, from + 1)
  }

  // A match is numbered by the rank of its line among the non-empty ones, every
  // matching line is there, and the numbers increase.
  lemma {:induction false} MatchesAreTheMatchingLines(ls: seq<string>, pattern: string, from: nat, m: Match)
    ensures m in Matches(ls, pattern, from) <==>
            && from <= m.number < from + |ls| && ls[m.number - from] == m.line
            && StrStr(m.line, pattern) == Some(m.offset)
  {
    hide StrStr, OccursAt, Contains;
    if ls != [] {
      var rest, r := ls[1..], StrStr(ls[0], pattern);
      var first, tail := if r.Some? then [Match(from, ls[0], r.value)] else [], Matches(rest, pattern, from + 1);
      assert Matches(ls, pattern, from) == first + tail;
      hide Matches;
      MatchesAreTheMatchingLines(rest, pattern, from + 1, m);
      assert m in first + tail <==> m in first || m in tail;
      assert m in first <==> m.number == from && m.line == ls[0] && StrStr(m.line, pattern) == Some(m.offset);
      assert forall i | 0 <= i < |rest| :: rest[i] == ls[i + 1];
    }
  }

  lemma {:induction false} MatchesInOrder(ls: seq<string>, pattern: string, from: nat)
    ensures forall i, j | 0 <= i < j < |Matches(ls, pattern, from)| ::
              Matches(ls, pattern, from)[i].number < Matches(ls, pattern, from)[j].number
    ensures forall m | m in Matches(ls, pattern, from) :: from <= m.number
  {
    if ls != [] {
      MatchesInOrder(ls[1..], pattern, from + 1);
    }
  }

  // The index, among all lines, of the r-th non-empty one.
  function Position(ls: seq<string>, r: nat): nat
    requires r < |NonEmpty(ls)|
  {
    if ls[0] == "" then 1 + Position(ls[1..], r)
    else if r == 0 then 0
    else 1 + Position(ls[1..], r - 1)
  }

  // The printed number is the line's number in the file exactly when no empty
  // line precedes it.
  lemma {:induction false} RankIsPositionIff(ls: seq<string>, r: nat)
    requires r < |NonEmpty(ls)|
    ensures r <= Position(ls, r) < |ls| && ls[Position(ls, r)] == NonEmpty(ls)[r]
    ensures Position(ls, r) == r <==> forall i | 0 <= i < Position(ls, r) :: ls[i] != ""
  {
    var rest := ls[1..];
    assert forall i | 0 <= i < |rest| :: rest[i] == ls[i + 1];
    var p := Position(ls, r);
    if ls[0] == "" {
      RankIsPositionIff(rest, r);
      assert p > 0 && ls[0] == "";
    } else if r > 0 {
      RankIsPositionIff(rest, r - 1);
      if forall i | 0 <= i < p :: ls[i] != "" {
        assert forall i | 0 <= i < p - 1 :: rest[i] == ls[i + 1] != "";
      }
      if p == r {
        forall i | 0 <= i < p
          ensures ls[i] != ""
        {
          if i > 0 {
            assert ls[i] == rest[i - 1];
          }
        }
      }
    }
  }

  // The non-empty lines keep their order.
  lemma {:induction false} PositionsIncrease(ls: seq<string>, q: nat, r: nat)
    requires q < r < |NonEmpty(ls)|
    ensures Position(ls, q) < Position(ls, r)
  {
    if ls[0] == "" {
      PositionsIncrease(ls[1..], q, r);
    } else if q > 0 {
      PositionsIncrease(ls[1..], q - 1, r - 1);
    }
  }

  // A file whose only text is on its second line prints it as line 1.
  lemma NumberingSkipsEmptyLines()
    ensures Matches(Tokens("\nx"), "x", 1) == [Match(1, "x", 0)] && Position(SplitLines("\nx"), 0) == 1
  {
    SplitAt("", "x");
    SplitAt("x", "");
    assert "" + "\n" + "x" == "\nx";
    assert SplitLines("\nx") == ["", "x"];
    var ls := ["", "x"];
    assert ls[1..] == ["x"] && ["x"][1..] == [];
    assert NonEmpty(ls) == ["x"];
    assert OccursAt("x", "x", 0);
  }

  // One printed line of output: the file's path, or a numbered match in pieces.
  datatype Line = Header(path: string) | Hit(number: nat, pieces: seq<string>)

  // In colour the matched text is a piece of its own.
  function Pieces(m: Match, pattern: string, colorize: bool): seq<string>
    requires m.offset + |pattern| <= |m.line|
  {
    if colorize then [m.line[..m.offset], pattern, m.line[m.offset + |pattern|..]] else [m.line]
  }

  predicate Found(ms: seq<Match>, pattern: string) {
    forall m | m in ms :: OccursAt(m.line, pattern, m.offset)
  }

  function Hits(ms: seq<Match>, pattern: string, colorize: bool): (out: seq<Line>)
    requires Found(ms, pattern)
    ensures |out| == |ms|
  {
    if ms == [] then []
    else
      assert ms[0] in ms;
      [Hit(ms[0].number, Pieces(ms[0], pattern, colorize))] + Hits(ms[1..], pattern, colorize)
  }

  // Every printed hit carries its match's number, and its pieces are the line: in
  // colour what precedes the match, the pattern, and what follows.
  lemma {:induction false} HitsSayTheMatches(ms: seq<Match>, pattern: string, colorize: bool, i: nat)
    requires Found(ms, pattern) && i < |ms|
    ensures var hit := Hits(ms, pattern, colorize)[i];
            && hit.Hit? && hit.number == ms[i].number && Concat(hit.pieces) == ms[i].line
            && (colorize ==> |hit.pieces| == 3 && |hit.pieces[0]| == ms[i].offset && hit.pieces[1] == pattern)
            && (!colorize ==> hit.pieces == [ms[i].line])
  {
    assert ms[i] in ms;
    if i == 0 {
      PiecesMakeTheLine(ms[0], pattern, colorize);
    } else {
      HitsSayTheMatches(ms[1..], pattern, colorize, i - 1);
    }
  }

  // What one file contributes to the output: nothing, or its path and its hits.
  function FileBlock(path: string, content: string, pattern: string, colorize: bool): seq<Line> {
    var ms := Matches(Tokens(content), pattern, 1);
    AllFound(Tokens(content), pattern, 1);
    if ms == [] then [] else [Header(path)] + Hits(ms, pattern, colorize)
  }

  lemma AllFound(ls: seq<string>, pattern: string, from: nat)
    ensures Found(Matches(ls, pattern, from), pattern)
  {
    forall m | m in Matches(ls, pattern, from)
      ensures OccursAt(m.line, pattern, m.offset)
    {
      MatchesAreTheMatchingLines(ls, pattern, from, m);
    }
  }

  function Concat(pieces: seq<string>): string {
    if pieces == [] then "" else pieces[0] + Concat(pieces[1..])
  }

  // Either way the pieces make up the line; in colour the second is the pattern,
  // behind as much of the line as precedes the match.
  lemma PiecesMakeTheLine(m: Match, pattern: string, colorize: bool)
    requires OccursAt(m.line, pattern, m.offset)
    ensures Concat(Pieces(m, pattern, colorize)) == m.line
    ensures var ps := Pieces(m, pattern, colorize);
            if colorize then |ps| == 3 && |ps[0]| == m.offset && ps[1] == pattern else ps == [m.line]
  {
    var ps := Pieces(m, pattern, colorize);
    if colorize {
      assert ps[1..] == [pattern, ps[2]] && ps[1..][1..] == [ps[2]] && ps[1..][1..][1..] == [];
      assert Concat(ps[1..][1..]) == ps[2];
      assert Concat(ps[1..]) == pattern + ps[2];
      assert m.line == m.line[..m.offset] + (m.line[m.offset..m.offset + |pattern|] + m.line[m.offset + |pattern|..]);
    } else {
      assert ps[1..] == [];
    }
  }

  // A file prints something exactly when searching it as a whole finds the pattern.
  lemma BlockIffContains(path: string, content: string, pattern: string, colorize: bool)
    ensures FileBlock(path, content, pattern, colorize) != [] <==>
            (&& Contains(content, pattern) && '\n' !in pattern
             && (pattern == "" ==> exists j | 0 <= j < |content| :: content[j] != '\n'))
  {
    hide Tokens, Matches, Contains, Hits, Found;
    LineSearchAgrees(content, pattern);
    SomeMatchIff(Tokens(content), pattern);
  }

  lemma SomeMatchIff(ls: seq<string>, pattern: string)
    ensures Matches(ls, pattern, 1) != [] <==> exists line :: line in ls && Contains(line, pattern)
  {
    hide Matches;
    var ms := Matches(ls, pattern, 1);
    if ms != [] {
      MatchesAreTheMatchingLines(ls, pattern, 1, ms[0]);
      assert ms[0].line in ls && OccursAt(ms[0].line, pattern, ms[0].offset);
    }
    if exists line :: line in ls && Contains(line, pattern) {
      var line :| line in ls && Contains(line, pattern);
      var i :| 0 <= i < |ls| && ls[i] == line;
      var m := Match(i + 1, line, StrStr(line, pattern).value);
      MatchesAreTheMatchingLines(ls, pattern, 1, m);
    }
  }

  // ----- what is printed for a file

  // hit prints line: in colour the first occurrence of the pattern is a piece of its own.
  ghost predicate SaysLine(hit: Line, line: string, pattern: string, colorize: bool) {
    && hit.Hit?
    && if colorize then
         && |hit.pieces| == 3 && hit.pieces[1] == pattern
         && hit.pieces[0] + hit.pieces[1] + hit.pieces[2] == line
         && forall i: nat | i < |hit.pieces[0]| :: !OccursAt(line, pattern, i)
       else hit.pieces == [line]
  }

  // hit prints the line its number says, one with the pattern in it.
  ghost predicate IsHit(hit: Line, lines: seq<string>, pattern: string, colorize: bool) {
    && hit.Hit? && 1 <= hit.number <= |lines|
    && Contains(lines[hit.number - 1], pattern)
    && SaysLine(hit, lines[hit.number - 1], pattern, colorize)
  }

  // The name, then a hit for each of the lines with the pattern in it, front to back.
  ghost predicate IsReport(block: seq<Line>, name: string, lines: seq<string>, pattern: string, colorize: bool) {
    && block != [] && block[0] == Header(name)
    && (forall i | 1 <= i < |block| :: IsHit(block[i], lines, pattern, colorize))
    && (forall i, j | 1 <= i < j < |block| :: block[i].Hit? && block[j].Hit? && block[i].number < block[j].number)
    && (forall r | 0 <= r < |lines| && Contains(lines[r], pattern) ::
          exists i :: 1 <= i < |block| && block[i].Hit? && block[i].number == r + 1)
  }

  lemma HitIsHit(ls: seq<string>, ms: seq<Match>, pattern: string, colorize: bool, i: nat)
    requires ms == Matches(ls, pattern, 1) && Found(ms, pattern) && i < |ms|
    ensures var hit := Hits(ms, pattern, colorize)[i];
            IsHit(hit, ls, pattern, colorize) && hit.number == ms[i].number
  {
    var hit, m := Hits(ms, pattern, colorize)[i], ms[i];
    hide Hits, Matches, Found;
    HitsSayTheMatches(ms, pattern, colorize, i);
    MatchesAreTheMatchingLines(ls, pattern, 1, m);
    assert OccursAt(m.line, pattern, m.offset);
    if colorize {
      ThreePieces(hit.pieces);
    }
  }

  lemma ThreePieces(ps: seq<string>)
    requires |ps| == 3
    ensures Concat(ps) == ps[0] + ps[1] + ps[2]
  {
    assert Concat(ps[1..][1..][1..]) == "";
    assert ps[1..][0] == ps[1] && ps[1..][1..][0] == ps[2];
    assert Concat(ps[1..][1..]) == ps[2];
    assert Concat(ps[1..]) == ps[1] + ps[2];
  }

  // A file with matches prints its report.
  lemma BlockIsReport(path: string, content: string, pattern: string, colorize: bool)
    requires FileBlock(path, content, pattern, colorize) != []
    ensures IsReport(FileBlock(path, content, pattern, colorize), path, Tokens(content), pattern, colorize)
  {
    var ls := Tokens(content);
    var ms := Matches(ls, pattern, 1);
    AllFound(ls, pattern, 1);
    ReportOf(path, ls, Hits(ms, pattern, colorize), ms, pattern, colorize);
  }

  lemma ReportOf(name: string, ls: seq<string>, hits: seq<Line>, ms: seq<Match>, pattern: string, colorize: bool)
    requires ms == Matches(ls, pattern, 1) && Found(ms, pattern) && hits == Hits(ms, pattern, colorize)
    ensures IsReport([Header(name)] + hits, name, ls, pattern, colorize)
  {
    hide Matches, Hits, Found, IsHit, Contains, OccursAt;
    MatchesInOrder(ls, pattern, 1);
    forall i | 0 <= i < |hits|
      ensures IsHit(hits[i], ls, pattern, colorize) && hits[i].Hit? && hits[i].number == ms[i].number
    {
      HitIsHit(ls, ms, pattern, colorize, i);
      IsHitHit(hits[i], ls, pattern, colorize);
    }
    var block := [Header(name)] + hits;
    assert forall i | 1 <= i < |block| :: block[i] == hits[i - 1];
    forall r | 0 <= r < |ls| && Contains(ls[r], pattern)
      ensures exists i :: 1 <= i < |block| && block[i].Hit? && block[i].number == r + 1
    {
      var i := MatchOf(ls, pattern, r);
      assert block[i + 1] == hits[i];
    }
  }

  lemma IsHitHit(hit: Line, lines: seq<string>, pattern: string, colorize: bool)
    requires IsHit(hit, lines, pattern, colorize)
    ensures hit.Hit?
  {
  }

  lemma MatchOf(ls: seq<string>, pattern: string, r: nat) returns (i: nat)
    requires r < |ls| && Contains(ls[r], pattern)
    ensures i < |Matches(ls, pattern, 1)| && Matches(ls, pattern, 1)[i].number == r + 1
  {
    var ms, m := Matches(ls, pattern, 1), Match(r + 1, ls[r], StrStr(ls[r], pattern).value);
    hide Matches;
    MatchesAreTheMatchingLines(ls, pattern, 1, m);
    i :| 0 <= i < |ms| && ms[i] == m;
  }
}
