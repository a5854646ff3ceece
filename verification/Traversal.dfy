// The producer's walk over the directory tree: which files it hands to the
// workers, and under which paths.
module Traversal {

  // An immutable file system. readdir also lists "." and ".."; whatever they are
  // modelled as, the walk skips them by name.
  datatype Kind = Directory(entries: seq<Entry>) | Regular(content: string) | Special
  datatype Entry = Entry(name: string, kind: Kind)

  datatype File = File(path: string, content: string)

  predicate Skipped(name: string) {
    name == "." || name == ".."
  }

  function FullPath(path: string, name: string): string {
    path + "/" + name
  }

  // What one directory entry contributes.
  function Visit(path: string, e: Entry): seq<File>
    decreases e
  {
    if Skipped(e.name) then []
    else
      match e.kind
      case Directory(entries) => Walk(FullPath(path, e.name), entries)
      case Regular(content) => if content != "" then [File(FullPath(path, e.name), content)] else []
      case Special => []
  }

  // traverse_directory: the files it enqueues, in order.
  function Walk(path: string, entries: seq<Entry>): seq<File>
    decreases entries
  {
    if entries == [] then [] else Visit(path, entries[0]) + Walk(path, entries[1..])
  }

  lemma {:induction false} WalkConcat(path: string, a: seq<Entry>, e: Entry)
    ensures Walk(path, a + [e]) == Walk(path, a) + Visit(path, e)
  {
    if a == [] {
      assert [e][1..] == [];
    } else {
      assert (a + [e])[1..] == a[1..] + [e];
      WalkConcat(path, a[1..], e);
    }
  }

  // The loop over readdir, with the calls of rb_enqueue collected in order.
  method TraverseDirectory(path: string, entries: seq<Entry>) returns (enqueued: seq<File>)
    ensures enqueued == Walk(path, entries)
    decreases entries
  {
    enqueued := [];
    for i := 0 to |entries|
      invariant enqueued == Walk(path, entries[..i])
    {
      var entry := entries[i];
      assert entries[..i + 1] == entries[..i] + [entry];
      WalkConcat(path, entries[..i], entry);
      if Skipped(entry.name) {
        continue;
      }
      var fullPath := FullPath(path, entry.name);
      if entry.kind.Directory? {
        var inner := TraverseDirectory(fullPath, entry.kind.entries);
        enqueued := enqueued + inner;
      } else if entry.kind.Regular? && entry.kind.content != "" {
        enqueued := enqueued + [File(fullPath, entry.kind.content)];
      }
    }
    assert entries[..|entries|] == entries;
  }

  // ----- the files of the tree, by the names that lead to them

  // names leads, through directories, to a non-empty regular file.
  ghost predicate Leads(entries: seq<Entry>, names: seq<string>, content: string)
    decreases |names|
  {
    && names != []
    && exists e | e in entries :: e.name == names[0] && LeadsThrough(e, names, content)
  }

  ghost predicate LeadsThrough(e: Entry, names: seq<string>, content: string)
    requires names != []
    decreases |names|, 0
  {
    && e.name != "." && e.name != ".." && e.name == names[0]
    && if |names| == 1 then e.kind == Regular(content) && content != ""
       else e.kind.Directory? && Leads(e.kind.entries, names[1..], content)
  }

  // The names, a slash in front of each.
  function Suffix(names: seq<string>): string {
    if names == [] then "" else "/" + names[0] + Suffix(names[1..])
  }

  lemma SuffixOfOne(name: string)
    ensures Suffix([name]) == "/" + name
  {
    assert [name][1..] == [];
  }

  lemma SuffixBelow(path: string, name: string, names: seq<string>)
    ensures path + Suffix([name] + names) == FullPath(path, name) + Suffix(names)
  {
    assert ([name] + names)[1..] == names;
  }

  lemma VisitSound(path: string, e: Entry, f: File) returns (names: seq<string>)
    requires f in Visit(path, e)
    ensures names != [] && LeadsThrough(e, names, f.content) && f.path == path + Suffix(names)
    decreases e
  {
    match e.kind {
      case Directory(entries) =>
        var rest := WalkSound(FullPath(path, e.name), entries, f);
        names := [e.name] + rest;
        assert names[1..] == rest;
        SuffixBelow(path, e.name, rest);
      case Regular(content) =>
        names := [e.name];
        SuffixOfOne(e.name);
    }
  }

  lemma {:induction false} WalkSound(path: string, entries: seq<Entry>, f: File) returns (names: seq<string>)
    requires f in Walk(path, entries)
    ensures Leads(entries, names, f.content) && f.path == path + Suffix(names)
    decreases entries
  {
    if f in Visit(path, entries[0]) {
      names := VisitSound(path, entries[0], f);
      assert entries[0] in entries;
    } else {
      names := WalkSound(path, entries[1..], f);
      var e :| e in entries[1..] && e.name == names[0] && LeadsThrough(e, names, f.content);
      assert e in entries;
    }
  }

  lemma VisitComplete(path: string, e: Entry, names: seq<string>, content: string)
    requires names != [] && LeadsThrough(e, names, content)
    ensures File(path + Suffix(names), content) in Visit(path, e)
    decreases |names|, 0
  {
    if |names| == 1 {
      assert names == [e.name];
      SuffixOfOne(e.name);
      assert path + Suffix(names) == FullPath(path, e.name);
    } else {
      assert names == [e.name] + names[1..];
      SuffixBelow(path, e.name, names[1..]);
      WalkComplete(FullPath(path, e.name), e.kind.entries, names[1..], content);
    }
  }

  lemma WalkComplete(path: string, entries: seq<Entry>, names: seq<string>, content: string)
    requires Leads(entries, names, content)
    ensures File(path + Suffix(names), content) in Walk(path, entries)
    decreases |names|, 1
  {
    var e :| e in entries && e.name == names[0] && LeadsThrough(e, names, content);
    VisitComplete(path, e, names, content);
    VisitInWalk(path, entries, e, File(path + Suffix(names), content));
  }

  lemma {:induction false} VisitInWalk(path: string, entries: seq<Entry>, e: Entry, f: File)
    requires e in entries && f in Visit(path, e)
    ensures f in Walk(path, entries)
    decreases |entries|
  {
    if e != entries[0] {
      assert e in entries[1..];
      VisitInWalk(path, entries[1..], e, f);
    }
  }

  // The walk enqueues exactly the non-empty regular files of the tree.
  lemma WalkFindsAllFiles(path: string, entries: seq<Entry>, f: File)
    ensures f in Walk(path, entries) <==>
            exists names :: Leads(entries, names, f.content) && f.path == path + Suffix(names)
  {
    if f in Walk(path, entries) {
      var names := WalkSound(path, entries, f);
    }
    if exists names :: Leads(entries, names, f.content) && f.path == path + Suffix(names) {
      var names :| Leads(entries, names, f.content) && f.path == path + Suffix(names);
      WalkComplete(path, entries, names, f.content);
    }
  }

  // ----- in which order

  // pos leads to a non-empty regular file: the index of an entry in each
  // directory on the way.
  predicate IsFile(entries: seq<Entry>, pos: seq<nat>)
    decreases |pos|
  {
    && pos != [] && pos[0] < |entries|
    && var e := entries[pos[0]];
       && e.name != "." && e.name != ".."
       && if |pos| == 1 then e.kind.Regular? && e.kind.content != ""
          else e.kind.Directory? && IsFile(e.kind.entries, pos[1..])
  }

  function NamesAt(entries: seq<Entry>, pos: seq<nat>): (names: seq<string>)
    requires IsFile(entries, pos)
    ensures |names| == |pos|
    decreases |pos|
  {
    var e := entries[pos[0]];
    if |pos| == 1 then [e.name] else [e.name] + NamesAt(e.kind.entries, pos[1..])
  }

  function ContentAt(entries: seq<Entry>, pos: seq<nat>): string
    requires IsFile(entries, pos)
    decreases |pos|
  {
    var e := entries[pos[0]];
    if |pos| == 1 then e.kind.content else ContentAt(e.kind.entries, pos[1..])
  }

  // The order of a depth-first walk that reads directories front to back.
  predicate Before(a: seq<nat>, b: seq<nat>) {
    && a != [] && b != []
    && (a[0] < b[0] || (a[0] == b[0] && Before(a[1..], b[1..])))
  }

  // at says where in the tree each of fs was found.
  ghost predicate Located(path: string, entries: seq<Entry>, fs: seq<File>, at: seq<seq<nat>>) {
    && |at| == |fs|
    && forall k | 0 <= k < |fs| :: IsFile(entries, at[k])
         && fs[k] == File(path + Suffix(NamesAt(entries, at[k])), ContentAt(entries, at[k]))
  }

  ghost predicate InOrder(at: seq<seq<nat>>) {
    forall i, j | 0 <= i < j < |at| :: Before(at[i], at[j])
  }

  // at holds the places of the files under the first n entries, and no other.
  ghost predicate Exhaustive(entries: seq<Entry>, n: nat, at: seq<seq<nat>>) {
    forall pos :: pos in at <==> IsFile(entries, pos) && pos[0] < n
  }

  function Beneath(i: nat, at: seq<seq<nat>>): (r: seq<seq<nat>>)
    ensures |r| == |at| && forall k | 0 <= k < |at| :: r[k] == [i] + at[k]
  {
    seq(|at|, k requires 0 <= k < |at| => [i] + at[k])
  }

  lemma BeneathMembers(i: nat, at: seq<seq<nat>>, pos: seq<nat>)
    ensures pos in Beneath(i, at) <==> pos != [] && pos[0] == i && pos[1..] in at
  {
    var r := Beneath(i, at);
    if pos in r {
      var k :| 0 <= k < |r| && r[k] == pos;
      assert pos[1..] == at[k];
    }
    if pos != [] && pos[0] == i && pos[1..] in at {
      var k :| 0 <= k < |at| && at[k] == pos[1..];
      assert r[k] == pos;
    }
  }

  lemma BeneathOrder(i: nat, at: seq<seq<nat>>)
    requires InOrder(at)
    ensures InOrder(Beneath(i, at))
  {
    var r := Beneath(i, at);
    forall j, k | 0 <= j < k < |r|
      ensures Before(r[j], r[k])
    {
      assert r[j][1..] == at[j] && r[k][1..] == at[k];
    }
  }

  // The entries' own files, in order.
  lemma {:induction false} EntryInOrder(path: string, entries: seq<Entry>, i: nat) returns (at: seq<seq<nat>>)
    requires i < |entries|
    ensures Located(path, entries, Visit(path, entries[i]), at) && InOrder(at)
    ensures forall pos :: pos in at <==> IsFile(entries, pos) && pos[0] == i
    decreases entries, i
  {
    var e := entries[i];
    if Skipped(e.name) {
      at := [];
    } else {
      match e.kind {
        case Directory(inner) =>
          var below := FrontInOrder(FullPath(path, e.name), inner, |inner|);
          assert inner[..|inner|] == inner;
          at := DirectoryInOrder(path, entries, i, below);
        case Regular(content) =>
          at := if content != "" then [[i]] else [];
          SuffixOfOne(e.name);
          forall pos
            ensures pos in at <==> IsFile(entries, pos) && pos[0] == i
          {
            if IsFile(entries, pos) && pos[0] == i {
              assert pos == [i];
            }
          }
        case Special =>
          at := [];
      }
    }
  }

  lemma DirectoryInOrder(path: string, entries: seq<Entry>, i: nat, below: seq<seq<nat>>) returns (at: seq<seq<nat>>)
    requires i < |entries| && !Skipped(entries[i].name) && entries[i].kind.Directory?
    requires var inner := entries[i].kind.entries;
             && Located(FullPath(path, entries[i].name), inner, Walk(FullPath(path, entries[i].name), inner), below)
             && InOrder(below) && Exhaustive(inner, |inner|, below)
    ensures Located(path, entries, Visit(path, entries[i]), at) && InOrder(at)
    ensures forall pos :: pos in at <==> IsFile(entries, pos) && pos[0] == i
  {
    var e := entries[i];
    var fs := Walk(FullPath(path, e.name), e.kind.entries);
    at := Beneath(i, below);
    BeneathOrder(i, below);
    forall k | 0 <= k < |fs|
      ensures IsFile(entries, at[k]) && fs[k] == File(path + Suffix(NamesAt(entries, at[k])), ContentAt(entries, at[k]))
    {
      assert at[k][1..] == below[k];
      assert below[k] in below && below[k] != [];
      SuffixBelow(path, e.name, NamesAt(e.kind.entries, below[k]));
    }
    forall pos
      ensures pos in at <==> IsFile(entries, pos) && pos[0] == i
    {
      BeneathMembers(i, below, pos);
      if |pos| == 1 {
        assert pos[1..] == [];
      }
    }
  }

  lemma {:induction false} FrontInOrder(path: string, entries: seq<Entry>, n: nat) returns (at: seq<seq<nat>>)
    requires n <= |entries|
    ensures Located(path, entries, Walk(path, entries[..n]), at) && InOrder(at) && Exhaustive(entries, n, at)
    decreases entries, n
  {
    if n == 0 {
      at := [];
    } else {
      var front := FrontInOrder(path, entries, n - 1);
      var here := EntryInOrder(path, entries, n - 1);
      assert entries[..n] == entries[..n - 1] + [entries[n - 1]];
      WalkConcat(path, entries[..n - 1], entries[n - 1]);
      at := front + here;
      LocatedTogether(path, entries, Walk(path, entries[..n - 1]), front, Visit(path, entries[n - 1]), here);
      hide Walk, Visit, Located, IsFile;
      InOrderTogether(front, here, n - 1);
    }
  }

  lemma LocatedTogether(path: string, entries: seq<Entry>, fs: seq<File>, a: seq<seq<nat>>, gs: seq<File>, b: seq<seq<nat>>)
    requires Located(path, entries, fs, a) && Located(path, entries, gs, b)
    ensures Located(path, entries, fs + gs, a + b)
  {
    hide IsFile, NamesAt, ContentAt, Suffix;
  }

  lemma InOrderTogether(a: seq<seq<nat>>, b: seq<seq<nat>>, n: nat)
    requires InOrder(a) && InOrder(b)
    requires forall pos | pos in a :: pos != [] && pos[0] < n
    requires forall pos | pos in b :: pos != [] && pos[0] == n
    ensures InOrder(a + b)
  {
    var ab := a + b;
    forall i, j | 0 <= i < j < |ab|
      ensures Before(ab[i], ab[j])
    {
      if i < |a| <= j {
        assert ab[i] in a && ab[j] in b;
      }
    }
  }

  // The walk enqueues the non-empty regular files of the tree, each where it is
  // and once, in the order of a depth-first walk, and nothing else.
  lemma WalkInOrder(path: string, entries: seq<Entry>) returns (at: seq<seq<nat>>)
    ensures Located(path, entries, Walk(path, entries), at) && InOrder(at)
    ensures forall pos :: pos in at <==> IsFile(entries, pos)
  {
    at := FrontInOrder(path, entries, |entries|);
    assert entries[..|entries|] == entries;
  }

  // ----- no file twice

  // In every directory the names are distinct and contain no slash.
  predicate NamesOk(entries: seq<Entry>)
    decreases entries
  {
    && (forall i, j | 0 <= i < j < |entries| :: entries[i].name != entries[j].name)
    && forall e | e in entries :: '/' !in e.name && (e.kind.Directory? ==> NamesOk(e.kind.entries))
  }

  // p is base itself or lies below it.
  predicate Under(p: string, base: string) {
    base <= p && (|p| == |base| || p[|base|] == '/')
  }

  lemma UnderDeeper(p: string, base: string, name: string)
    requires Under(p, FullPath(base, name))
    ensures Under(p, base)
  {
    var full := FullPath(base, name);
    assert full[|base|] == '/' && full[..|base|] == base;
    assert p[..|full|] == full;
    assert p[..|base|] == full[..|base|];
    assert p[|base|] == full[|base|];
  }

  lemma VisitUnder(path: string, e: Entry, f: File)
    requires f in Visit(path, e)
    ensures Under(f.path, FullPath(path, e.name))
    decreases e
  {
    match e.kind {
      case Directory(entries) => WalkUnder(FullPath(path, e.name), entries, f);
      case Regular(content) =>
    }
  }

  lemma {:induction false} WalkUnder(path: string, entries: seq<Entry>, f: File)
    requires f in Walk(path, entries)
    ensures Under(f.path, path)
    decreases entries
  {
    if f in Visit(path, entries[0]) {
      VisitUnder(path, entries[0], f);
      UnderDeeper(f.path, path, entries[0].name);
    } else {
      WalkUnder(path, entries[1..], f);
    }
  }

  // One path cannot lie under two different names of one directory.
  lemma OneName(p: string, base: string, a: string, b: string)
    requires Under(p, FullPath(base, a)) && Under(p, FullPath(base, b))
    requires '/' !in a && '/' !in b
    ensures a == b
  {
    var n := |base| + 1;
    var fa, fb := FullPath(base, a), FullPath(base, b);
    assert forall i | 0 <= i < |a| :: a[i] == fa[n + i] == p[n + i] && a[i] in a;
    assert forall i | 0 <= i < |b| :: b[i] == fb[n + i] == p[n + i] && b[i] in b;
    assert !(|a| < |b|) && !(|b| < |a|);
  }

  predicate DistinctPaths(fs: seq<File>) {
    forall i, j | 0 <= i < j < |fs| :: fs[i].path != fs[j].path
  }

  lemma VisitDistinct(path: string, e: Entry)
    requires e.kind.Directory? ==> NamesOk(e.kind.entries)
    ensures DistinctPaths(Visit(path, e))
    decreases e
  {
    if e.kind.Directory? && !Skipped(e.name) {
      WalkDistinct(FullPath(path, e.name), e.kind.entries);
    }
  }

  // No path is enqueued twice.
  lemma {:induction false} WalkDistinct(path: string, entries: seq<Entry>)
    requires NamesOk(entries)
    ensures DistinctPaths(Walk(path, entries))
    decreases entries
  {
    if entries != [] {
      var first, rest := entries[0], entries[1..];
      assert first in entries;
      assert NamesOk(rest) by {
        assert forall i | 0 <= i < |rest| :: rest[i] == entries[i + 1];
        assert forall e | e in rest :: e in entries;
      }
      VisitDistinct(path, first);
      WalkDistinct(path, rest);
      forall f, g | f in Visit(path, first) && g in Walk(path, rest)
        ensures f.path != g.path
      {
        var k := OwnerOf(path, rest, g);
        assert rest[k] == entries[k + 1] && rest[k] in entries;
        VisitUnder(path, first, f);
        VisitUnder(path, rest[k], g);
        if f.path == g.path {
          OneName(f.path, path, first.name, rest[k].name);
        }
      }
    }
  }

  lemma {:induction false} OwnerOf(path: string, entries: seq<Entry>, f: File) returns (k: nat)
    requires f in Walk(path, entries)
    ensures k < |entries| && f in Visit(path, entries[k])
    decreases |entries|
  {
    if f in Visit(path, entries[0]) {
      k := 0;
    } else {
      k := OwnerOf(path, entries[1..], f);
      k := k + 1;
    }
  }
}
