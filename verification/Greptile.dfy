// The whole program: arguments and a directory tree in, exit status and printed
// lines out, whatever the threads' schedule.
module Greptile {
  import opened Lines
  import opened RingBuffer
  import opened Traversal
  import opened Protocol
  import opened ProtocolSafety
  import opened ProtocolProgress
  import FileSearch

  // argv: a pattern, and perhaps a directory.
  datatype Args = Args(pattern: string, directory: Option<string>)

  function Root(args: Args): string {
    if args.directory.Some? then args.directory.value else "."
  }

  // file_print_offset: the "./" put in front by default is not printed.
  function PrintOffset(args: Args): nat {
    if args.directory.Some? then 0 else 2
  }

  lemma PathsAreBelow(path: string, entries: seq<Entry>, f: File)
    requires f in Walk(path, entries)
    ensures |path| + 1 <= |f.path|
  {
    var k := OwnerOf(path, entries, f);
    VisitUnder(path, entries[k], f);
  }

  // What a worker prints for file f (see FileSearch.SearchFile).
  function BlockOf(args: Args, f: File, colorize: bool): seq<Line>
    requires PrintOffset(args) <= |f.path|
  {
    FileBlock(f.path[PrintOffset(args)..], Text(f.content), args.pattern, colorize)
  }

  function Blocks(args: Args, entries: seq<Entry>, colorize: bool): (bs: seq<seq<Line>>)
    ensures |bs| == |Walk(Root(args), entries)|
  {
    var fs := Walk(Root(args), entries);
    seq(|fs|, i requires 0 <= i < |fs| =>
      assert fs[i] in fs;
      PathsAreBelow(Root(args), entries, fs[i]);
      BlockOf(args, fs[i], colorize))
  }

  function Setup(args: Args, entries: seq<Entry>, colorize: bool, capacity: nat, workers: nat): Config {
    Config(capacity, workers, Blocks(args, entries, colorize))
  }

  // One turn of a worker's loop on file f, whose content read_file_into_buffer has
  // put into a buffer one longer: it prints f's block.
  method SearchJob(buf: array<char>, args: Args, f: File, colorize: bool) returns (foundMatch: bool, out: seq<Line>)
    requires PrintOffset(args) <= |f.path|
    requires buf.Length == |f.content| + 1 && buf[..|f.content|] == f.content
    modifies buf
    ensures out == BlockOf(args, f, colorize)
    ensures foundMatch <==> Matching(f.content, args.pattern)
    ensures out == [] <==> !foundMatch
    ensures foundMatch ==> IsReport(out, f.path[PrintOffset(args)..], Tokens(Text(f.content)), args.pattern, colorize)
  {
    hide IsReport, FileBlock, Tokens;
    BlockFacts(args, f, colorize);
    foundMatch, out := FileSearch.SearchFile(buf, |f.content|, f.path, PrintOffset(args), args.pattern, colorize);
  }

  // The part of a file that the C string functions see: up to its first NUL.
  function Text(content: string): (text: string)
    ensures text <= content && '\0' !in text
    ensures |text| < |content| ==> content[|text|] == '\0'
  {
    FileSearch.CString(content, 0)
  }

  // The file's text contains the pattern; a pattern with a newline never matches,
  // and the empty one needs a line that is not empty.
  ghost predicate Matching(content: string, pattern: string) {
    var text := Text(content);
    && Contains(text, pattern) && '\n' !in pattern
    && (pattern == "" ==> exists j | 0 <= j < |text| :: text[j] != '\n')
  }

  // Some non-empty regular file of the tree matches.
  ghost predicate SomeMatch(entries: seq<Entry>, pattern: string) {
    exists names, content :: Leads(entries, names, content) && Matching(content, pattern)
  }

  lemma BlockFacts(args: Args, f: File, colorize: bool)
    requires PrintOffset(args) <= |f.path|
    ensures BlockOf(args, f, colorize) != [] <==> Matching(f.content, args.pattern)
    ensures BlockOf(args, f, colorize) != [] ==>
              IsReport(BlockOf(args, f, colorize), f.path[PrintOffset(args)..], Tokens(Text(f.content)), args.pattern, colorize)
  {
    hide IsReport, FileBlock, Tokens, Contains;
    var name, text := f.path[PrintOffset(args)..], Text(f.content);
    BlockIffContains(name, text, args.pattern, colorize);
    if BlockOf(args, f, colorize) != [] {
      BlockIsReport(name, text, args.pattern, colorize);
    }
  }

  lemma SomeBlockIffSomeMatch(args: Args, entries: seq<Entry>, colorize: bool)
    ensures (exists i :: 0 <= i < |Blocks(args, entries, colorize)| && Blocks(args, entries, colorize)[i] != [])
            <==> SomeMatch(entries, args.pattern)
  {
    hide Blocks, Walk, Matching;
    var root := Root(args);
    var fs, bs := Walk(root, entries), Blocks(args, entries, colorize);
    if exists i :: 0 <= i < |bs| && bs[i] != [] {
      var i :| 0 <= i < |bs| && bs[i] != [];
      BlockIffMatching(args, entries, colorize, i);
      var names := WalkSound(root, entries, fs[i]);
      assert Leads(entries, names, fs[i].content) && Matching(fs[i].content, args.pattern);
    }
    if SomeMatch(entries, args.pattern) {
      var names, content :| Leads(entries, names, content) && Matching(content, args.pattern);
      WalkComplete(root, entries, names, content);
      var i :| 0 <= i < |fs| && fs[i] == File(root + Suffix(names), content);
      BlockIffMatching(args, entries, colorize, i);
    }
  }

  lemma BlockIffMatching(args: Args, entries: seq<Entry>, colorize: bool, i: nat)
    requires i < |Walk(Root(args), entries)|
    ensures Blocks(args, entries, colorize)[i] != [] <==> Matching(Walk(Root(args), entries)[i].content, args.pattern)
  {
    hide Walk, Blocks, BlockOf, Matching, PrintOffset;
    BlockAt(args, entries, colorize, i);
    BlockFacts(args, Walk(Root(args), entries)[i], colorize);
  }

  lemma BlockAt(args: Args, entries: seq<Entry>, colorize: bool, i: nat)
    requires i < |Walk(Root(args), entries)|
    ensures var f := Walk(Root(args), entries)[i];
            PrintOffset(args) <= |f.path| && Blocks(args, entries, colorize)[i] == BlockOf(args, f, colorize)
  {
    PathsAreBelow(Root(args), entries, Walk(Root(args), entries)[i]);
  }

  // ----- what the program is for

  // The name a file is printed under: the given directory and what leads from it
  // to the file; without one, what leads from the current directory.
  function PrintedName(args: Args, names: seq<string>): string
    requires names != []
  {
    match args.directory
    case Some(directory) => directory + Suffix(names)
    case None => names[0] + Suffix(names[1..])
  }

  // A matching file at pos in the tree.
  ghost predicate MatchAt(entries: seq<Entry>, pos: seq<nat>, pattern: string) {
    IsFile(entries, pos) && Matching(ContentAt(entries, pos), pattern)
  }

  ghost predicate ReportAt(args: Args, entries: seq<Entry>, colorize: bool, pos: seq<nat>, block: seq<Line>) {
    && MatchAt(entries, pos, args.pattern)
    && IsReport(block, PrintedName(args, NamesAt(entries, pos)), Tokens(Text(ContentAt(entries, pos))), args.pattern, colorize)
  }

  // The output is the report of every matching file, whole and once, and nothing
  // else; at and blocks say in which order.
  ghost predicate IsOutput(args: Args, entries: seq<Entry>, colorize: bool, output: seq<Line>, at: seq<seq<nat>>, blocks: seq<seq<Line>>) {
    && |at| == |blocks| && output == Flatten(blocks)
    && (forall i, j | 0 <= i < j < |at| :: at[i] != at[j])
    && (forall k | 0 <= k < |at| :: ReportAt(args, entries, colorize, at[k], blocks[k]))
    && (forall pos | MatchAt(entries, pos, args.pattern) :: pos in at)
  }

  // The result, in a final state.
  ghost predicate Correct(args: Args, entries: seq<Entry>, colorize: bool, s: State) {
    && ExitStatus(s) == (if SomeMatch(entries, args.pattern) then 0 else 1)
    && exists at, blocks :: IsOutput(args, entries, colorize, s.output, at, blocks)
  }

  // The path a file is found under, less what is not printed.
  lemma NamePrinted(args: Args, names: seq<string>)
    requires names != []
    ensures var path := Root(args) + Suffix(names);
            PrintOffset(args) <= |path| && path[PrintOffset(args)..] == PrintedName(args, names)
  {
    var rest := names[0] + Suffix(names[1..]);
    assert Suffix(names) == "/" + rest;
    hide Suffix;
    if args.directory.None? {
      assert ("." + ("/" + rest))[2..] == rest;
    }
  }

  // Block f of the configuration is what belongs where the walk found file f.
  lemma BlockBelongs(args: Args, entries: seq<Entry>, colorize: bool, found: seq<seq<nat>>, f: nat)
    requires Located(Root(args), entries, Walk(Root(args), entries), found) && f < |found|
    ensures IsFile(entries, found[f]) && f < |Blocks(args, entries, colorize)|
    ensures var block := Blocks(args, entries, colorize)[f];
            && (block != [] <==> MatchAt(entries, found[f], args.pattern))
            && (block != [] ==> ReportAt(args, entries, colorize, found[f], block))
  {
    hide IsReport, IsFile, Walk, Tokens, Text, Blocks, BlockOf, Matching, PrintOffset, Root, PrintedName, Suffix;
    NamePrinted(args, NamesAt(entries, found[f]));
    BlockAt(args, entries, colorize, f);
    BlockFacts(args, Walk(Root(args), entries)[f], colorize);
  }

  // Whatever the ring's capacity, the number of workers and the schedule: when the
  // program returns, its status is 0 if some file matches and 1 if none does, and it
  // has printed the report of every matching file, whole and once, and nothing else.
  lemma ProgramIsCorrect(args: Args, entries: seq<Entry>, colorize: bool, capacity: nat, workers: nat, s: State)
    requires capacity >= 1 && workers >= 1
    requires var c := Setup(args, entries, colorize, capacity, workers); Reachable(c, s) && Final(c, s)
    ensures Correct(args, entries, colorize, s)
  {
    hide IsOutput, Walk, Blocks, SomeMatch, Reachable, Final, InOrder;
    var c := Setup(args, entries, colorize, capacity, workers);
    ResultIsScheduleIndependent(c, s);
    SomeBlockIffSomeMatch(args, entries, colorize);
    var at, blocks := OutputOf(args, entries, colorize, capacity, workers, s);
  }

  // The matching files in the order in which they were printed.
  lemma OutputOf(args: Args, entries: seq<Entry>, colorize: bool, capacity: nat, workers: nat, s: State)
    returns (at: seq<seq<nat>>, blocks: seq<seq<Line>>)
    requires capacity >= 1 && workers >= 1
    requires var c := Setup(args, entries, colorize, capacity, workers); Reachable(c, s) && Final(c, s)
    ensures IsOutput(args, entries, colorize, s.output, at, blocks)
    ensures workers == 1 ==> InOrder(at)
  {
    hide Walk, Blocks, Reachable, Final, IsFile, ReportAt, MatchAt, Flatten, Before;
    var c := Setup(args, entries, colorize, capacity, workers);
    var found := WalkInOrder(Root(args), entries);
    ResultIsScheduleIndependent(c, s);
    assert |found| == |c.blocks|;
    blocks := BlocksOf(c, s.order);
    at := Picked(found, s.order);
    forall f | 0 <= f < |found|
      ensures f in s.order <==> MatchAt(entries, found[f], args.pattern)
      ensures f in s.order ==> ReportAt(args, entries, colorize, found[f], c.blocks[f])
    {
      BlockBelongs(args, entries, colorize, found, f);
    }
    PickedDistinct(found, s.order);
    forall pos | MatchAt(entries, pos, args.pattern)
      ensures pos in at
    {
      MatchIsFile(entries, pos, args.pattern);
      var f :| 0 <= f < |found| && found[f] == pos;
      var k :| 0 <= k < |s.order| && s.order[k] == f;
      assert at[k] == pos;
    }
    if workers == 1 {
      OneWorkerPrintsInOrder(c, s);
    }
  }

  function Picked(found: seq<seq<nat>>, order: seq<nat>): (at: seq<seq<nat>>)
    requires forall f | f in order :: f < |found|
    ensures |at| == |order| && forall k | 0 <= k < |at| :: order[k] in order && at[k] == found[order[k]]
  {
    seq(|order|, k requires 0 <= k < |order| => assert order[k] in order; found[order[k]])
  }

  lemma PickedDistinct(found: seq<seq<nat>>, order: seq<nat>)
    requires InOrder(found) && forall f | f in order :: f < |found|
    requires forall i, j | 0 <= i < j < |order| :: order[i] != order[j]
    ensures var at := Picked(found, order); forall i, j | 0 <= i < j < |at| :: at[i] != at[j]
  {
    var at := Picked(found, order);
    forall i, j | 0 <= i < j < |at|
      ensures at[i] != at[j]
    {
      if order[i] < order[j] {
        NotBefore(found[order[i]], found[order[j]]);
      } else {
        NotBefore(found[order[j]], found[order[i]]);
      }
    }
  }

  lemma {:induction false} NotBefore(a: seq<nat>, b: seq<nat>)
    requires Before(a, b)
    ensures a != b
  {
    if a[0] == b[0] {
      NotBefore(a[1..], b[1..]);
    }
  }

  lemma MatchIsFile(entries: seq<Entry>, pos: seq<nat>, pattern: string)
    requires MatchAt(entries, pos, pattern)
    ensures IsFile(entries, pos)
  {
  }

  // With one worker the reports come in the order of the walk.
  lemma OneWorkerReportsInOrder(args: Args, entries: seq<Entry>, colorize: bool, capacity: nat, s: State)
    requires capacity >= 1
    requires var c := Setup(args, entries, colorize, capacity, 1); Reachable(c, s) && Final(c, s)
    ensures exists at, blocks :: IsOutput(args, entries, colorize, s.output, at, blocks) && InOrder(at)
  {
    hide IsOutput, InOrder, Walk, Blocks, Reachable, Final;
    var at, blocks := OutputOf(args, entries, colorize, capacity, 1, s);
  }

  // Every run of the program is bounded but for spurious wakeups, is never stuck,
  // and when only spurious wakeups are left it has returned the right result.
  lemma EveryRunEndsCorrectly(args: Args, entries: seq<Entry>, colorize: bool, capacity: nat, workers: nat, s0: State, steps: seq<Step>)
    requires capacity >= 1 && workers >= 1
    requires var c := Setup(args, entries, colorize, capacity, workers); Init(c, s0) && Legal(c, s0, steps)
    ensures var c := Setup(args, entries, colorize, capacity, workers);
            var s := Exec(c, s0, steps);
            && |steps| <= StepBound(c) + 3 * SpuriousCount(steps)
            && Ok(s.ring)
            && ((forall step: Step | !Spurious(step) :: !Enabled(c, s, step)) ==> Final(c, s))
            && (Final(c, s) ==> Correct(args, entries, colorize, s))
  {
    var c := Setup(args, entries, colorize, capacity, workers);
    var s := Exec(c, s0, steps);
    hide Setup, Init, Inv, Apply, Enabled, Legal, Exec, Correct, Walk;
    assert ValidConfig(c) by { ValidSetup(args, entries, colorize, capacity, workers); }
    RunsAreBounded(c, s0, steps);
    assert Reachable(c, s);
    RingIsFifo(c, s);
    if forall step: Step | !Spurious(step) :: !Enabled(c, s, step) {
      StuckRunsAreFinal(c, s0, steps);
    }
    if Final(c, s) {
      ProgramIsCorrect(args, entries, colorize, capacity, workers, s);
    }
  }

  lemma ValidSetup(args: Args, entries: seq<Entry>, colorize: bool, capacity: nat, workers: nat)
    requires capacity >= 1 && workers >= 1
    ensures ValidConfig(Setup(args, entries, colorize, capacity, workers))
  {
  }
}
