// One worker's work on one file: strtok_r cutting the buffer up in place, the
// queue of matches pointing into it, and the printing of that queue.
module FileSearch {
  import opened Lines
  import PQ = PrintQueue

  // The terminator of the C string at p, and the string.
  function CEnd(b: seq<char>, p: nat): (e: nat)
    requires p <= |b|
    ensures p <= e <= |b| && (e < |b| ==> b[e] == '\0')
    ensures forall j | p <= j < e :: b[j] != '\0'
    decreases |b| - p
  {
    if p == |b| || b[p] == '\0' then p else CEnd(b, p + 1)
  }

  function CString(b: seq<char>, p: nat): string
    requires p <= |b|
  {
    b[p..CEnd(b, p)]
  }

  lemma CEndIs(b: seq<char>, p: nat, e: nat)
    requires p <= e < |b| && b[e] == '\0' && forall j | p <= j < e :: b[j] != '\0'
    ensures CEnd(b, p) == e
  {
  }

  // A buffer whose last character terminates every string in it.
  predicate Terminated(b: seq<char>) {
    b != [] && b[|b| - 1] == '\0'
  }

  // Newlines at or after p may have become terminators; nothing else changed.
  ghost predicate Cut(b: seq<char>, b': seq<char>, p: nat) {
    |b'| == |b| && forall i | 0 <= i < |b| :: b'[i] == b[i] || (p <= i && b[i] == '\n' && b'[i] == '\0')
  }

  lemma CutKeepsString(b: seq<char>, b': seq<char>, from: nat, p: nat)
    requires Terminated(b) && Cut(b, b', from) && p < |b| && CEnd(b, p) <= from
    ensures CEnd(b', p) == CEnd(b, p) && CString(b', p) == CString(b, p)
  {
    var e := CEnd(b, p);
    assert e < |b|;
    CEndIs(b', p, e);
  }

  // ----- strtok_r

  function SkipNewlines(b: seq<char>, p: nat): (q: nat)
    requires Terminated(b) && p < |b|
    ensures p <= q < |b| && b[q] != '\n'
    decreases |b| - p
  {
    if b[p] == '\n' then SkipNewlines(b, p + 1) else p
  }

  function TokenEnd(b: seq<char>, p: nat): (e: nat)
    requires Terminated(b) && p < |b|
    ensures p <= e < |b| && (b[e] == '\n' || b[e] == '\0')
    ensures forall j | p <= j < e :: b[j] != '\n' && b[j] != '\0'
    decreases |b| - p
  {
    if b[p] == '\n' || b[p] == '\0' then p else TokenEnd(b, p + 1)
  }

  lemma {:induction false} SkippingKeepsTokens(b: seq<char>, p: nat)
    requires Terminated(b) && p < |b|
    ensures Tokens(CString(b, p)) == Tokens(CString(b, SkipNewlines(b, p)))
    decreases |b| - p
  {
    if b[p] == '\n' {
      SkippingKeepsTokens(b, p + 1);
      assert CString(b, p) == "" + "\n" + CString(b, p + 1);
      TokensStart("", CString(b, p + 1));
    }
  }

  // The token at q, cut out by b', and the tokens behind it.
  lemma TokenStep(b: seq<char>, b': seq<char>, q: nat)
    requires Terminated(b) && q < |b| && b[q] != '\n' && b[q] != '\0'
    requires var e := TokenEnd(b, q);
             b' == if b[e] == '\n' then b[e := '\0'] else b
    ensures Terminated(b')
    ensures var e := TokenEnd(b, q);
            var next := if b[e] == '\n' then e + 1 else e;
            && next < |b| && CEnd(b', q) == e
            && Tokens(CString(b, q)) == [CString(b', q)] + Tokens(CString(b', next))
  {
    hide Tokens, TokenEnd, CEnd, CString;
    var e := TokenEnd(b, q);
    if b[e] == '\n' {
      TokenCut(b, q, e);
    } else {
      LastToken(b, q, e);
    }
  }

  // Cut off at the newline behind it.
  lemma TokenCut(b: seq<char>, q: nat, e: nat)
    requires Terminated(b) && q < e < |b| && b[e] == '\n' && forall j | q <= j < e :: b[j] != '\n' && b[j] != '\0'
    ensures var b' := b[e := '\0'];
            && Terminated(b') && e + 1 < |b| && CEnd(b', q) == e
            && Tokens(CString(b, q)) == [CString(b', q)] + Tokens(CString(b', e + 1))
  {
    hide Tokens;
    var b', t, rest := b[e := '\0'], b[q..e], CString(b, e + 1);
    CEndIs(b', q, e);
    assert CString(b', q) == t;
    TailUnchanged(b, b', e + 1);
    CEndFrom(b, q, e + 1);
    assert CString(b, q) == t + "\n" + rest;
    TokensStart(t, rest);
  }

  // The end of the string reached.
  lemma LastToken(b: seq<char>, q: nat, e: nat)
    requires Terminated(b) && q < e < |b| && b[e] == '\0' && forall j | q <= j < e :: b[j] != '\n' && b[j] != '\0'
    ensures CEnd(b, q) == e && Tokens(CString(b, q)) == [CString(b, q)] + Tokens(CString(b, e))
  {
    hide Tokens;
    CEndIs(b, q, e);
    CEndIs(b, e, e);
    TokensStart(b[q..e], "");
    TokensStart("", "");
    assert CString(b, e) == "" && CString(b, q) == b[q..e];
  }

  lemma CEndFrom(b: seq<char>, q: nat, p: nat)
    requires Terminated(b) && q <= p < |b| && forall j | q <= j < p :: b[j] != '\0'
    ensures CEnd(b, q) == CEnd(b, p)
  {
    CEndIs(b, q, CEnd(b, p));
  }

  lemma TailUnchanged(b: seq<char>, b': seq<char>, p: nat)
    requires p < |b| == |b'| && Terminated(b) && forall j | p <= j < |b| :: b'[j] == b[j]
    ensures CString(b', p) == CString(b, p)
  {
    CEndIs(b', p, CEnd(b, p));
  }

  // strtok_r(p, "\n", &next): the next non-empty line, terminated in place.
  method StrTok(buf: array<char>, p: nat) returns (line: nat, found: bool, next: nat)
    requires Terminated(buf[..]) && p < buf.Length
    modifies buf
    ensures Terminated(buf[..]) && Cut(old(buf[..]), buf[..], p)
    ensures p <= next < buf.Length
    ensures !found ==> Tokens(CString(old(buf[..]), p)) == []
    ensures found ==> && p <= line < buf.Length && p < next && CEnd(buf[..], line) <= next
                      && Tokens(CString(old(buf[..]), p)) == [CString(buf[..], line)] + Tokens(CString(buf[..], next))
  {
    hide Tokens, TokenEnd, SkipNewlines;
    ghost var b := buf[..];
    SkippingKeepsTokens(b, p);
    line := SkipNewlines(buf[..], p);
    if buf[line] == '\0' {
      CEndIs(b, line, line);
      TokensStart("", "");
      assert CString(b, line) == "";
      return line, false, line;
    }
    var e := TokenEnd(buf[..], line);
    if buf[e] == '\n' {
      buf[e] := '\0';
      next := e + 1;
      assert buf[..] == b[e := '\0'];
    } else {
      next := e;
    }
    found := true;
    TokenStep(b, buf[..], line);
  }

  // ----- the queue of matches

  // What an entry says about the buffer it points into.
  function Resolve(b: seq<char>, es: seq<PQ.Entry>): (ms: seq<Match>)
    requires forall e | e in es :: e.line <= e.hit && e.line <= |b|
    ensures |ms| == |es|
  {
    if es == [] then []
    else [Match(es[0].lineNum, CString(b, es[0].line), es[0].hit - es[0].line)] + Resolve(b, es[1..])
  }

  // Entries whose lines end at or before p, with the pattern where they say.
  ghost predicate Settled(b: seq<char>, es: seq<PQ.Entry>, pattern: string, p: nat) {
    forall e | e in es ::
      && e.line <= e.hit && e.line < |b| && CEnd(b, e.line) <= p
      && OccursAt(CString(b, e.line), pattern, e.hit - e.line)
  }

  lemma CutKeepsEntries(b: seq<char>, b': seq<char>, es: seq<PQ.Entry>, pattern: string, p: nat, next: nat)
    requires Terminated(b) && Cut(b, b', p) && Settled(b, es, pattern, p) && p <= next
    ensures Settled(b', es, pattern, next) && Resolve(b', es) == Resolve(b, es)
  {
    forall e | e in es
      ensures CEnd(b', e.line) == CEnd(b, e.line) && CString(b', e.line) == CString(b, e.line)
    {
      CutKeepsString(b, b', p, e.line);
    }
    SameResolve(b, b', es);
  }

  lemma {:induction false} SameResolve(b: seq<char>, b': seq<char>, es: seq<PQ.Entry>)
    requires |b| == |b'|
    requires forall e | e in es :: e.line <= e.hit && e.line <= |b| && CString(b', e.line) == CString(b, e.line)
    ensures Resolve(b', es) == Resolve(b, es)
  {
    if es != [] {
      assert es[0] in es;
      SameResolve(b, b', es[1..]);
    }
  }

  lemma {:induction false} ResolveConcat(b: seq<char>, es: seq<PQ.Entry>, e: PQ.Entry)
    requires (forall x | x in es :: x.line <= x.hit && x.line <= |b|) && e.line <= e.hit && e.line <= |b|
    ensures forall x | x in es + [e] :: x.line <= x.hit && x.line <= |b|
    ensures Resolve(b, es + [e]) == Resolve(b, es) + [Match(e.lineNum, CString(b, e.line), e.hit - e.line)]
  {
    hide CString;
    if es == [] {
      assert [e][1..] == [];
    } else {
      assert es[0] in es && (es + [e])[1..] == es[1..] + [e];
      ResolveConcat(b, es[1..], e);
    }
  }

  lemma {:induction false} ResolvedAreFound(b: seq<char>, es: seq<PQ.Entry>, pattern: string, p: nat)
    requires Settled(b, es, pattern, p)
    ensures Found(Resolve(b, es), pattern)
  {
    if es != [] {
      assert es[0] in es;
      ResolvedAreFound(b, es[1..], pattern, p);
    }
  }

  lemma SuffixString(b: seq<char>, p: nat, d: nat)
    requires p <= |b| && d <= |CString(b, p)|
    ensures CString(b, p + d) == CString(b, p)[d..]
  {
    if CEnd(b, p) < |b| {
      CEndIs(b, p + d, CEnd(b, p));
    } else {
      assert CEnd(b, p + d) == |b|;
    }
  }

  // pq_print: the header, then every entry front to back, leaving the queue empty.
  method PrintAll(buf: array<char>, pq: PQ.Queue, name: string, pattern: string, colorize: bool) returns (out: seq<Line>)
    requires pq.Valid() && Settled(buf[..], pq.Contents(), pattern, buf.Length)
    modifies pq
    ensures pq.Valid() && pq.Contents() == []
    ensures old(Found(Resolve(buf[..], pq.Contents()), pattern))
    ensures out == [Header(name)] + Hits(Resolve(buf[..], old(pq.Contents())), pattern, colorize)
  {
    hide Printout, Resolve, CEnd, OccursAt;
    ghost var b, all := buf[..], pq.Contents();
    PrintoutIsHits(b, all, pattern, colorize);
    out := [Header(name)];
    var job := pq.PopFront();
    ghost var left := all;
    while job != null
      invariant pq.Valid() && Settled(b, left, pattern, |b|)
      invariant left == (if job == null then [] else [job.entry]) + pq.Contents()
      invariant job == null ==> pq.Contents() == []
      invariant [Header(name)] + Printout(b, all, pattern, colorize) == out + Printout(b, left, pattern, colorize)
      decreases |left|
    {
      var e := job.entry;
      assert e in left && left[1..] == pq.Contents();
      PrintoutFirst(b, left, pattern, colorize);
      var hit := PrintOne(buf[..], e, pattern, colorize);
      out := out + [hit];
      left := left[1..];
      job := pq.PopFront();
    }
    NothingPrinted(b, pattern, colorize);
  }

  // What is printed for the entries es.
  ghost function Printout(b: seq<char>, es: seq<PQ.Entry>, pattern: string, colorize: bool): seq<Line>
    requires Settled(b, es, pattern, |b|)
  {
    ResolvedAreFound(b, es, pattern, |b|);
    Hits(Resolve(b, es), pattern, colorize)
  }

  lemma PrintoutIsHits(b: seq<char>, es: seq<PQ.Entry>, pattern: string, colorize: bool)
    requires Settled(b, es, pattern, |b|)
    ensures Found(Resolve(b, es), pattern) && Printout(b, es, pattern, colorize) == Hits(Resolve(b, es), pattern, colorize)
  {
    ResolvedAreFound(b, es, pattern, |b|);
  }

  lemma PrintoutFirst(b: seq<char>, es: seq<PQ.Entry>, pattern: string, colorize: bool)
    requires es != [] && Settled(b, es, pattern, |b|)
    ensures OccursAt(CString(b, es[0].line), pattern, es[0].hit - es[0].line) && Settled(b, es[1..], pattern, |b|)
    ensures Printout(b, es, pattern, colorize) == [PrintOne(b, es[0], pattern, colorize)] + Printout(b, es[1..], pattern, colorize)
  {
    hide Hits, Resolve, Found, OccursAt, PrintOne, Pieces, CString;
    ResolvedAreFound(b, es, pattern, |b|);
    HitsFirst(b, es, pattern, colorize);
    PrintOneIsHit(b, es[0], pattern, colorize);
  }

  lemma NothingPrinted(b: seq<char>, pattern: string, colorize: bool)
    ensures Printout(b, [], pattern, colorize) == []
  {
  }

  // The two printf calls: the text before the match, the pattern, the text behind
  // it; or the whole line.
  function PrintOne(b: seq<char>, e: PQ.Entry, pattern: string, colorize: bool): Line
    requires e.line <= e.hit && e.line <= |b| && OccursAt(CString(b, e.line), pattern, e.hit - e.line)
  {
    var line := CString(b, e.line);
    assert e.hit + |pattern| <= |b|;
    Hit(e.lineNum, if colorize then [line[..e.hit - e.line], pattern, CString(b, e.hit + |pattern|)] else [line])
  }

  lemma PrintOneIsHit(b: seq<char>, e: PQ.Entry, pattern: string, colorize: bool)
    requires e.line <= e.hit && e.line <= |b| && OccursAt(CString(b, e.line), pattern, e.hit - e.line)
    ensures PrintOne(b, e, pattern, colorize)
            == Hit(e.lineNum, Pieces(Match(e.lineNum, CString(b, e.line), e.hit - e.line), pattern, colorize))
  {
    SuffixString(b, e.line, e.hit - e.line + |pattern|);
    hide CString;
  }

  lemma HitsFirst(b: seq<char>, es: seq<PQ.Entry>, pattern: string, colorize: bool)
    requires es != [] && Settled(b, es, pattern, |b|) && Found(Resolve(b, es), pattern)
    ensures Found(Resolve(b, es[1..]), pattern)
    ensures var m := Resolve(b, es)[0];
            && OccursAt(m.line, pattern, m.offset)
            && m == Match(es[0].lineNum, CString(b, es[0].line), es[0].hit - es[0].line)
            && Settled(b, es[1..], pattern, |b|)
            && Hits(Resolve(b, es), pattern, colorize)
               == [Hit(m.number, Pieces(m, pattern, colorize))] + Hits(Resolve(b, es[1..]), pattern, colorize)
  {
    ResolvedAreFound(b, es[1..], pattern, |b|);
    var ms := Resolve(b, es);
    assert ms[1..] == Resolve(b, es[1..]) && ms[0] in ms;
  }

  // Between two lines: the entries so far and the lines still to come make up
  // all the matches.
  ghost predicate Progress(b: seq<char>, es: seq<PQ.Entry>, found: bool, line: nat, next: nat, lineNum: nat, content: string, pattern: string) {
    && Terminated(b) && next < |b|
    && (found ==> line < |b| && CEnd(b, line) <= next)
    && Settled(b, es, pattern, next)
    && Matches(Tokens(content), pattern, 1)
       == Resolve(b, es) + Matches(if found then [CString(b, line)] + Tokens(CString(b, next)) else [], pattern, lineNum)
  }

  // The queue after the current line has been searched.
  function Added(b: seq<char>, es: seq<PQ.Entry>, line: nat, lineNum: nat, pattern: string): seq<PQ.Entry>
    requires line < |b|
  {
    var hit := StrStr(CString(b, line), pattern);
    if hit.Some? then es + [PQ.Entry(line, line + hit.value, lineNum)] else es
  }

  lemma LineSearched(b: seq<char>, es: seq<PQ.Entry>, line: nat, next: nat, lineNum: nat, content: string, pattern: string)
    requires Progress(b, es, true, line, next, lineNum, content, pattern)
    ensures var es' := Added(b, es, line, lineNum, pattern);
            && Settled(b, es', pattern, next)
            && Matches(Tokens(content), pattern, 1)
               == Resolve(b, es') + Matches(Tokens(CString(b, next)), pattern, lineNum + 1)
  {
    hide Tokens, CEnd, OccursAt, CString, StrStr, Resolve;
    var text, tokens := CString(b, line), Tokens(CString(b, next));
    var left := [text] + tokens;
    assert left[1..] == tokens;
    var hit := StrStr(text, pattern);
    if hit.Some? {
      ResolveConcat(b, es, PQ.Entry(line, line + hit.value, lineNum));
    }
  }

  lemma Advance(b: seq<char>, b': seq<char>, es: seq<PQ.Entry>, line: nat, next: nat, found': bool, line': nat, next': nat,
                                   lineNum: nat, content: string, pattern: string)
    requires Progress(b, es, true, line, next, lineNum, content, pattern)
    requires Terminated(b') && Cut(b, b', next) && next <= next' < |b|
    requires !found' ==> Tokens(CString(b, next)) == []
    requires found' ==> line' < |b'| && CEnd(b', line') <= next' && Tokens(CString(b, next)) == [CString(b', line')] + Tokens(CString(b', next'))
    ensures Progress(b', Added(b, es, line, lineNum, pattern), found', line', next', lineNum + 1, content, pattern)
  {
    LineSearched(b, es, line, next, lineNum, content, pattern);
    hide Tokens, CEnd, OccursAt, Added, Resolve;
    CutKeepsEntries(b, b', Added(b, es, line, lineNum, pattern), pattern, next, next');
  }

  // The body of search_files' loop for one file: its content is in buf, which is
  // one longer than the file.
  method SearchFile(buf: array<char>, fileSize: nat, path: string, printOffset: nat, pattern: string, colorize: bool)
    returns (foundMatch: bool, out: seq<Line>)
    requires buf.Length == fileSize + 1 && printOffset <= |path|
    modifies buf
    ensures var content := CString(old(buf[..fileSize]), 0);
            && out == FileBlock(path[printOffset..], content, pattern, colorize)
            && foundMatch == (out != [])
  {
    hide Tokens, CEnd, CString, Found, Hits, OccursAt, Progress, Settled, Cut, Resolve, Matches, StrStr, FileBlock, Added, PQ.Queue.Valid, PQ.Queue.Contents;
    ghost var content := CString(buf[..fileSize], 0);
    buf[fileSize] := '\0';
    TerminatedContent(old(buf[..fileSize]), buf[..]);
    var pq := new PQ.Queue();
    foundMatch := false;
    var line: nat, found: bool, nextLine: nat := StrTok(buf, 0);
    var lineNum: nat := 1;
    Started(buf[..], found, line, nextLine, content, pattern);
    while found
      invariant pq.Valid() && fresh(pq) && fresh(pq.nodes)
      invariant Terminated(buf[..]) && nextLine < buf.Length && (found ==> line < buf.Length)
      invariant Progress(buf[..], pq.Contents(), found, line, nextLine, lineNum, content, pattern)
      invariant foundMatch == (pq.Contents() != [])
      decreases buf.Length - nextLine, found
    {
      ghost var b, es, l, p := buf[..], pq.Contents(), line, nextLine;
      var hit := StrStr(CString(buf[..], line), pattern);
      if hit.Some? {
        pq.AddTail(PQ.Entry(line, line + hit.value, lineNum));
        foundMatch := true;
      }
      assert pq.Contents() == Added(b, es, l, lineNum, pattern) by { AddedIs(b, es, l, lineNum, pattern); }
      line, found, nextLine := StrTok(buf, nextLine);
      Advance(b, buf[..], es, l, p, found, line, nextLine, lineNum, content, pattern);
      lineNum := lineNum + 1;
    }
    out := [];
    Finished(buf[..], pq.Contents(), line, nextLine, lineNum, content, pattern);
    FileBlockIs(path[printOffset..], content, pattern, colorize);
    pq.HeadIsFront();
    if pq.head != null {
      out := PrintAll(buf, pq, path[printOffset..], pattern, colorize);
    }
  }

  lemma AddedIs(b: seq<char>, es: seq<PQ.Entry>, line: nat, lineNum: nat, pattern: string)
    requires line < |b|
    ensures var hit := StrStr(CString(b, line), pattern);
            Added(b, es, line, lineNum, pattern) == if hit.Some? then es + [PQ.Entry(line, line + hit.value, lineNum)] else es
  {
  }

  lemma FileBlockIs(name: string, content: string, pattern: string, colorize: bool)
    ensures var ms := Matches(Tokens(content), pattern, 1);
            && Found(ms, pattern)
            && FileBlock(name, content, pattern, colorize) == if ms == [] then [] else [Header(name)] + Hits(ms, pattern, colorize)
  {
    hide Found, Hits, Matches, Tokens;
    AllFound(Tokens(content), pattern, 1);
  }

  lemma Started(b: seq<char>, found: bool, line: nat, next: nat, content: string, pattern: string)
    requires Terminated(b) && next < |b| && (found ==> line < |b| && CEnd(b, line) <= next)
    requires Tokens(content) == if found then [CString(b, line)] + Tokens(CString(b, next)) else []
    ensures Progress(b, [], found, line, next, 1, content, pattern)
  {
  }

  lemma Finished(b: seq<char>, es: seq<PQ.Entry>, line: nat, next: nat, lineNum: nat, content: string, pattern: string)
    requires Progress(b, es, false, line, next, lineNum, content, pattern)
    ensures Settled(b, es, pattern, |b|) && Matches(Tokens(content), pattern, 1) == Resolve(b, es)
  {
    assert Matches([], pattern, lineNum) == [];
  }

  lemma TerminatedContent(s: seq<char>, b: seq<char>)
    requires b == s + ['\0']
    ensures Terminated(b) && CString(b, 0) == CString(s, 0)
  {
    CEndIs(b, 0, CEnd(s, 0));
  }
}
