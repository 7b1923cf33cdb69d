/** The read-only directory tree both halves of the asset checker look at:
    the project tree scanned for source files and the `public/` tree that
    references are resolved against. A directory's entry order stands in
    for the order in which the platform lists it. */
module AssetTree {
  import opened Wrappers

  datatype Node = File(content: string) | Dir(entries: seq<Entry>)
  datatype Entry = Entry(name: string, node: Node)

  /** No two entries of a directory share a name, as on a real file system. */
  predicate UniqueNames(entries: seq<Entry>) {
    forall i, j :: 0 <= i < j < |entries| ==> entries[i].name != entries[j].name
  }

  /** The entry of `n` called exactly `name`, if `n` is a directory that has one. */
  function Child(n: Node, name: string): (r: Option<Node>)
    ensures r.Some? <==> n.Dir? && exists k :: 0 <= k < |n.entries| && n.entries[k].name == name
    ensures r.Some? ==> exists k :: 0 <= k < |n.entries| && n.entries[k] == Entry(name, r.value)
  {
    if n.File? then None else ChildFrom(n.entries, name, 0)
  }

  function ChildFrom(es: seq<Entry>, name: string, i: nat): (r: Option<Node>)
    requires i <= |es|
    ensures r.Some? <==> exists k :: i <= k < |es| && es[k].name == name
    ensures r.Some? ==> exists k :: i <= k < |es| && es[k] == Entry(name, r.value)
    decreases |es| - i
  {
    if i == |es| then None
    else if es[i].name == name then Some(es[i].node)
    else ChildFrom(es, name, i + 1)
  }

  /** A regular file found below some directory: its path as a list of
      segments and its text. */
  datatype SourceFile = SourceFile(segs: seq<string>, content: string)

  /** `segs` leads from `n` through entries with exactly those names to a
      regular file holding `content`. */
  ghost predicate HasFile(n: Node, segs: seq<string>, content: string)
    decreases n
  {
    && |segs| >= 1
    && n.Dir?
    && exists k :: 0 <= k < |n.entries| && n.entries[k].name == segs[0] &&
        (if |segs| == 1 then n.entries[k].node == File(content)
         else HasFile(n.entries[k].node, segs[1..], content))
  }

  /** In a directory with unique names, a path of two or more segments
      exists exactly when its tail exists below the child its first
      segment names; with no such child it does not exist. */
  lemma HasFileThroughChild(n: Node, segs: seq<string>, content: string)
    requires n.Dir? ==> UniqueNames(n.entries)
    requires |segs| >= 2
    ensures Child(n, segs[0]).None? ==> !HasFile(n, segs, content)
    ensures Child(n, segs[0]).Some? ==>
      (HasFile(n, segs, content) <==> HasFile(Child(n, segs[0]).value, segs[1..], content))
  {
    var c := Child(n, segs[0]);
    if c.Some? {
      var k0 :| 0 <= k0 < |n.entries| && n.entries[k0] == Entry(segs[0], c.value);
      if HasFile(n, segs, content) {
        var k :| 0 <= k < |n.entries| && n.entries[k].name == segs[0] &&
          HasFile(n.entries[k].node, segs[1..], content);
        assert k == k0;
      }
    }
  }

  function Under(name: string, fs: seq<SourceFile>): (r: seq<SourceFile>)
    ensures |r| == |fs|
    ensures forall k :: 0 <= k < |fs| ==> r[k] == SourceFile([name] + fs[k].segs, fs[k].content)
  {
    seq(|fs|, k requires 0 <= k < |fs| => SourceFile([name] + fs[k].segs, fs[k].content))
  }

  lemma UnderMembership(name: string, fs: seq<SourceFile>, f: SourceFile)
    ensures f in Under(name, fs) <==>
      |f.segs| >= 1 && f.segs[0] == name && SourceFile(f.segs[1..], f.content) in fs
  {
    var r := Under(name, fs);
    if f in r {
      var k :| 0 <= k < |r| && r[k] == f;
      assert f.segs[1..] == fs[k].segs;
    }
    if |f.segs| >= 1 && f.segs[0] == name && SourceFile(f.segs[1..], f.content) in fs {
      var k :| 0 <= k < |fs| && fs[k] == SourceFile(f.segs[1..], f.content);
      assert [name] + f.segs[1..] == f.segs;
      assert r[k] == f;
    }
  }

  /** Every regular file below `n`, depth first in entry order: a
      subdirectory's files stand at the subdirectory's place. This is the
      set of files `Path.rglob("*")` restricted to `is_file()` yields, but
      not its order, which lists a directory's own entries before the
      contents of its subdirectories. */
  function Files(n: Node): seq<SourceFile>
    decreases n, 1
  {
    match n
    case File(_) => []
    case Dir(es) => EntriesFiles(n, 0)
  }

  function EntriesFiles(parent: Node, i: nat): seq<SourceFile>
    requires parent.Dir? && i <= |parent.entries|
    decreases parent, 0, |parent.entries| - i
  {
    if i == |parent.entries| then []
    else
      assert parent.entries[i] in parent.entries;
      EntryFiles(parent.entries[i]) + EntriesFiles(parent, i + 1)
  }

  /** The files an entry contributes: itself, or everything below it. */
  function EntryFiles(e: Entry): seq<SourceFile>
    decreases e
  {
    match e.node
    case File(c) => [SourceFile([e.name], c)]
    case Dir(_) => Under(e.name, Files(e.node))
  }

  /** The walk lists exactly the files that exist below `n`. */
  lemma {:induction false} FilesComplete(n: Node, f: SourceFile)
    ensures f in Files(n) <==> HasFile(n, f.segs, f.content)
    decreases n, 1
  {
    if n.Dir? {
      EntriesFilesComplete(n, 0, f);
    }
  }

  lemma {:induction false} EntriesFilesComplete(parent: Node, i: nat, f: SourceFile)
    requires parent.Dir? && i <= |parent.entries|
    ensures f in EntriesFiles(parent, i) <==>
      (|f.segs| >= 1 && exists k :: i <= k < |parent.entries| && EntryHas(parent.entries[k], f))
    decreases parent, 0, |parent.entries| - i
  {
    if i < |parent.entries| {
      var e := parent.entries[i];
      assert e in parent.entries;
      EntriesFilesComplete(parent, i + 1, f);
      EntryFilesComplete(e, f);
    }
  }

  lemma {:induction false} EntryFilesComplete(e: Entry, f: SourceFile)
    ensures f in EntryFiles(e) <==> EntryHas(e, f)
    decreases e
  {
    var head := EntryFiles(e);
    if e.node.File? {
      assert f in head <==> f == SourceFile([e.name], e.node.content);
      if |f.segs| >= 2 {
        assert !HasFile(e.node, f.segs[1..], f.content);
      }
      if |f.segs| == 1 && EntryHas(e, f) {
        assert f.segs == [e.name];
      }
    } else {
      var fs := Files(e.node);
      if f in head {
        var k :| 0 <= k < |head| && head[k] == f;
        FilesComplete(e.node, fs[k]);
        assert f.segs[1..] == fs[k].segs;
        assert EntryHas(e, f);
      }
      if EntryHas(e, f) {
        assert |f.segs| >= 2;
        var g := SourceFile(f.segs[1..], f.content);
        FilesComplete(e.node, g);
        var k :| 0 <= k < |fs| && fs[k] == g;
        assert [e.name] + g.segs == f.segs;
        assert head[k] == f;
      }
    }
  }

  /** `f`'s path starts at entry `e` and leads to a file with its text. */
  ghost predicate EntryHas(e: Entry, f: SourceFile) {
    && |f.segs| >= 1
    && e.name == f.segs[0]
    && (if |f.segs| == 1 then e.node == File(f.content)
        else HasFile(e.node, f.segs[1..], f.content))
  }
}
